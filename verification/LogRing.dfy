/** The log buffer: a staging buffer in which tags are written over bytes that are already
    logged, and a ring with a version 1 header (start, size) or a version 2 one (start, end). */
module LogRing {
  import opened Machine
  import opened LogText

  const LEN: nat := 16384
  const STAGE: nat := 1024

  /** An unsigned long. */
  type Counter = n: nat | n < WORD

  /** `n & LOGBUFF_MASK` */
  function Slot(n: nat): (k: nat)
    ensures k < LEN
  {
    n % LEN
  }

  /** The counters may wrap: the ring's length divides 2^32. */
  lemma SlotOfWrapped(n: nat)
    ensures Slot(Wrap(n)) == Slot(n)
  {
  }

  lemma SlotsDiffer(a: nat, b: nat)
    requires a < b < a + LEN
    ensures Slot(a) != Slot(b)
  {
  }

  lemma WrapStep(n: nat)
    ensures Wrap(Wrap(n) + 1) == Wrap(n + 1)
  {
  }

  /** Wrapped counters that are less than a word apart keep their distance. */
  lemma WrapDistance(a: nat, b: nat)
    requires a <= b < a + WORD
    ensures (Wrap(b) - Wrap(a)) % WORD == b - a
    ensures Wrap(Wrap(a) + (b - a)) == Wrap(b)
  {
  }

  /** The counters before and after a character is logged: when the ring is full, the distance says so. */
  lemma HeldAfter(n: nat)
    ensures var first := n - Min(n, LEN);
            && Wrap(Wrap(n) + 1) == Wrap(n + 1) && Wrap(Wrap(first) + 1) == Wrap(first + 1)
            && (Wrap(n + 1) - Wrap(first)) % WORD == n + 1 - first
            && n + 1 - Min(n + 1, LEN) == if n + 1 - first > LEN then first + 1 else first
  {
    var first := n - Min(n, LEN);
    WrapStep(n);
    WrapStep(first);
    WrapDistance(first, n + 1);
  }

  lemma Regroup(a: string, b: string, c: string)
    ensures a + (b + c) == (a + b) + c
  {
  }

  /** What stops the copying of a line is a line feed of the text, not of its tag. */
  lemma TagHasNoLineFeed(opening: bool, rest: string, now: string, t: nat, p: nat)
    requires t <= p <= |now| && now[t..p] == Tag(opening, rest)
    ensures forall i | t <= i < p :: now[i] != '\n'
  {
  }

  /** The level once a line of `m` characters is logged. */
  function LineLevel(level: int, s: string, m: nat): int
    requires 0 < m <= |s|
  {
    if s[m - 1] == '\n' then -1 else OpenLevel(level, s)
  }

  /** What is left to log after the first line. */
  lemma {:induction false} AfterLine(before: string, level: int, rest: string, m: nat)
    requires OneLine(rest, m)
    ensures before + Logged(level < 0, rest)
      == (before + (Tag(level < 0, rest) + rest[..m])) + Logged(LineLevel(level, rest, m) < 0, rest[m..])
    ensures LevelAfter(level, rest) == LevelAfter(LineLevel(level, rest, m), rest[m..])
  {
    LoggedLine(level < 0, rest, m);
    LevelLine(level, rest, m);
    Regroup(before, Tag(level < 0, rest) + rest[..m], Logged(true, rest[m..]));
    assert rest[m - 1] != '\n' ==> rest[m..] == "";
  }

  lemma StagedTail(now: string, p: nat, bufEnd: nat, rest: string, was: string)
    requires p <= bufEnd < |now| && now[p..] == was && rest == was[..bufEnd - p]
    ensures now[p..bufEnd] == rest && now[bufEnd] == was[bufEnd - p]
  {
  }

  lemma StagedLine(now: string, t: nat, p: nat, bufEnd: nat, stop: nat, tag: string, rest: string)
    requires t <= p < stop <= bufEnd < |now| && now[t..p] == tag && now[p..bufEnd] == rest
    ensures now[t..stop] == tag + rest[..stop - p] && now[stop..bufEnd] == rest[stop - p..]
    ensures forall i | 0 <= i < stop - p :: rest[i] == now[p + i]
  {
  }

  /** Copying the staged text from `t` until `q` logs a tag and one line. */
  lemma LineLogged(now: string, t: nat, p: nat, bufEnd: nat, q: nat, opening: bool, rest: string) returns (m: nat)
    requires t <= p < bufEnd < |now| && now[t..p] == Tag(opening, rest) && now[p..bufEnd] == rest
    requires t <= q <= bufEnd && (forall i | t <= i < q :: now[i] != '\n') && (q < bufEnd ==> now[q] == '\n')
    ensures OneLine(rest, m) && (rest[m - 1] == '\n' <==> q < bufEnd)
    ensures q + 1 == if q < bufEnd then p + m else bufEnd + 1
    ensures now[t..if q < bufEnd then q + 1 else q] == Tag(opening, rest) + rest[..m]
    ensures q < bufEnd ==> now[q + 1..bufEnd] == rest[m..]
  {
    TagHasNoLineFeed(opening, rest, now, t, p);
    var stop := if q < bufEnd then q + 1 else q;
    m := stop - p;
    StagedLine(now, t, p, bufEnd, stop, Tag(opening, rest), rest);
  }

  class LogBuffer {
    const version: nat
    const stage: array<char>
    const ring: array<char>
    var start: Counter    // both versions
    var size: Counter     // version 1
    var end: Counter      // version 2
    var chars: Counter    // both versions
    var level: int        // of the open line, -1 at a line start
    ghost var stream: string   // everything logged since the last reset

    /** How much of the stream the ring holds. */
    ghost function Count(): nat
      reads this
    {
      Min(|stream|, LEN)
    }

    ghost predicate HeaderOk()
      reads this
    {
      && start == Wrap(|stream| - Count())
      && chars == Wrap(|stream|)
      && if version == 2 then end == Wrap(|stream|) else size == Count()
    }

    /** The ring holds the last `LEN` characters logged, each in its own slot. */
    ghost predicate RingOk()
      requires ring.Length == LEN
      reads this, ring
    {
      forall n: nat | |stream| - Count() <= n < |stream| :: ring[Slot(n)] == stream[n]
    }

    ghost predicate Valid()
      reads this, ring
    {
      ring.Length == LEN && stage.Length == STAGE && stage != ring && -1 <= level <= 7 && HeaderOk() && RingOk()
    }

    /** The k-th character the header says is held. */
    function Cell(k: nat): char
      requires ring.Length == LEN
      reads this, ring
    {
      ring[Slot(Wrap(start + k))]
    }

    /** ... is the k-th of the last characters logged. */
    lemma CellHolds(k: nat)
      requires Valid() && k < Count()
      ensures Cell(k) == stream[|stream| - Count() + k]
    {
      var first: nat := |stream| - Count();
      WrapDistance(first, first + k);
      SlotOfWrapped(first + k);
    }

    constructor (version: nat)
      ensures Valid() && this.version == version && stream == "" && level == -1
    {
      this.version := version;
      stage := new char[STAGE];
      ring := new char[LEN];
      start, size, end, chars := 0, 0, 0, 0;
      level := -1;
      stream := "";
    }

    /** Forgets the log; the level of an open line stays. */
    method Reset()
      requires Valid()
      modifies this`start, this`size, this`end, this`chars, this`stream
      ensures Valid() && stream == ""
    {
      start, size, end, chars := 0, 0, 0, 0;
      stream := "";
    }

    /** Moves the header on by one character. */
    method Advance()
      requires HeaderOk()
      modifies this
      ensures stream == old(stream) && level == old(level)
      ensures chars == Wrap(|stream| + 1)
      ensures start == Wrap(|stream| + 1 - Min(|stream| + 1, LEN))
      ensures if version == 2 then end == Wrap(|stream| + 1) else size == Min(|stream| + 1, LEN)
    {
      WrapStep(|stream|);
      if version == 2 {
        AdvanceEnd();
      } else {
        WrapStep(|stream| - Count());
        if size < LEN {
          size := size + 1;
        } else {
          start := Wrap(start + 1);
        }
      }
      chars := Wrap(chars + 1);
    }

    /** The version 2 form of it. */
    method AdvanceEnd()
      requires HeaderOk() && version == 2
      modifies this`start, this`end
      ensures start == Wrap(|stream| + 1 - Min(|stream| + 1, LEN)) && end == Wrap(|stream| + 1)
    {
      HeldAfter(|stream|);
      end := Wrap(end + 1);
      if (end - start) % WORD > LEN {
        start := Wrap(start + 1);
      }
    }

    /** The slot after the last character held. */
    method NextSlot() returns (k: nat)
      requires HeaderOk()
      ensures k == Slot(|stream|)
    {
      ghost var n: nat := |stream|;
      SlotOfWrapped(n);
      WrapDistance(n - Count(), n);
      k := if version == 2 then Slot(end) else Slot(Wrap(start + size));
    }

    /** Logs one character. */
    method Put(c: char)
      requires Valid()
      modifies this, ring
      ensures Valid() && stream == old(stream) + [c] && level == old(level)
    {
      ghost var n: nat := |stream|;
      var k := NextSlot();
      ring[k] := c;
      Advance();
      stream := stream + [c];
      forall k: nat | n + 1 - Count() <= k < n + 1 ensures ring[Slot(k)] == stream[k] {
        if k < n { SlotsDiffer(k, n); }
      }
    }

    /** Logs the staged text from `p` up to and including a line feed, or up to `bufEnd`;
        `q` is where it stopped. */
    method PutLine(p: nat, bufEnd: nat) returns (q: nat, lineFeed: bool)
      requires Valid() && p < bufEnd < STAGE
      modifies this, ring
      ensures Valid() && level == old(level)
      ensures p <= q <= bufEnd && lineFeed == (q < bufEnd)
      ensures forall i | p <= i < q :: stage[i] != '\n'
      ensures lineFeed ==> stage[q] == '\n'
      ensures stream == old(stream) + stage[p..if lineFeed then q + 1 else q]
    {
      lineFeed := false;
      q := p;
      while q < bufEnd
        invariant p <= q <= bufEnd && Valid() && level == old(level)
        invariant forall i | p <= i < q :: stage[i] != '\n'
        invariant stream == old(stream) + stage[p..q]
        invariant stage[..] == old(stage[..])
      {
        Put(stage[q]);
        assert stage[p..q + 1] == stage[p..q] + [stage[q]];
        if stage[q] == '\n' {
          lineFeed := true;
          return;
        }
        q := q + 1;
      }
    }

    /** strcpy into the staging buffer, behind room for one tag. */
    method Fill(line: string)
      requires stage.Length == STAGE && |line| + 4 <= STAGE
      modifies stage
      ensures stage[3..3 + |line|] == line && stage[3 + |line|] == '\0'
    {
      var i := 0;
      while i < |line|
        invariant i <= |line|
        invariant forall k | 0 <= k < i :: stage[3 + k] == line[k]
      {
        stage[3 + i] := line[i];
        i := i + 1;
      }
      stage[3 + |line|] := '\0';
    }

    /** Begins a line: backs `p` up over three bytes for a tag unless the text brings one. */
    method OpenLine(p: nat, bufEnd: nat) returns (q: nat)
      requires stage.Length == STAGE && 3 <= p < bufEnd < STAGE && stage[bufEnd] == '\0'
      modifies this`level, stage
      ensures q <= p
      ensures stage[p..] == old(stage[p..])
      ensures stage[q..p] == Tag(old(level) < 0, old(stage[p..bufEnd]))
      ensures level == OpenLevel(old(level), old(stage[p..bufEnd]))
    {
      ghost var s := stage[p..bufEnd];
      q := p;
      if level < 0 {
        if stage[p] != '<' || stage[p + 1] < '0' || stage[p + 1] > '7' || stage[p + 2] != '>' {
          q := p - 3;
          stage[q] := '<';
          stage[q + 1] := '4';
          stage[q + 2] := '>';
        }
        level := stage[q + 1] as int - '0' as int;
      }
    }

    /** Logs one line, the first `m` characters of the staged text `rest`; `q` is where the
        next one begins. */
    method LogLine(p: nat, bufEnd: nat, ghost rest: string) returns (q: nat, ghost m: nat)
      requires Valid() && 3 <= p < bufEnd < STAGE && stage[bufEnd] == '\0'
      requires rest == stage[p..bufEnd]
      modifies this, ring, stage
      ensures Valid() && OneLine(rest, m) && stage[bufEnd] == '\0'
      ensures q == if rest[m - 1] == '\n' then p + m else bufEnd + 1
      ensures q <= bufEnd ==> stage[q..bufEnd] == rest[m..]
      ensures stream == old(stream) + (Tag(old(level) < 0, rest) + rest[..m])
      ensures level == LineLevel(old(level), rest, m)
    {
      var t := OpenLine(p, bufEnd);
      ghost var now := stage[..];
      StagedTail(now, p, bufEnd, rest, old(stage[p..]));
      var lineFeed;
      q, lineFeed, m := PutTagged(t, p, bufEnd, old(level) < 0, rest);
      assert stage[..] == now;
      if lineFeed { level := -1; }
      q := q + 1;
    }

    /** Logs a tag that is staged in front of `p`, if there is one, and one line of `rest`. */
    method PutTagged(t: nat, p: nat, bufEnd: nat, ghost opening: bool, ghost rest: string)
      returns (q: nat, lineFeed: bool, ghost m: nat)
      requires Valid() && t <= p < bufEnd < STAGE && stage[t..p] == Tag(opening, rest) && stage[p..bufEnd] == rest
      modifies this, ring
      ensures Valid() && level == old(level) && OneLine(rest, m)
      ensures (rest[m - 1] == '\n' <==> lineFeed) && q + 1 == if lineFeed then p + m else bufEnd + 1
      ensures lineFeed ==> stage[q + 1..bufEnd] == rest[m..]
      ensures stream == old(stream) + (Tag(opening, rest) + rest[..m])
    {
      ghost var now := stage[..];
      assert now[t..p] == stage[t..p] && now[p..bufEnd] == stage[p..bufEnd];
      q, lineFeed := PutLine(t, bufEnd);
      assert stage[..] == now;
      m := LineLogged(now, t, p, bufEnd, q, opening, rest);
    }

    /** Logs a text as one call: its lines, with a tag in front of each that lacks one. */
    method Printk(line: string) returns (n: nat)
      requires Valid() && |line| + 4 <= STAGE && '\0' !in line
      modifies this, ring, stage
      ensures Valid()
      ensures stream == old(stream) + Logged(old(level) < 0, line)
      ensures level == LevelAfter(old(level), line)
      ensures n == |line|
    {
      Fill(line);
      n := |line|;
      var bufEnd := 3 + n;
      var p := 3;
      ghost var rest := line;
      while p < bufEnd
        invariant 3 <= p <= bufEnd + 1 && Valid() && stage[bufEnd] == '\0'
        invariant if p <= bufEnd then stage[p..bufEnd] == rest else rest == ""
        invariant old(stream) + Logged(old(level) < 0, line) == stream + Logged(level < 0, rest)
        invariant LevelAfter(old(level), line) == LevelAfter(level, rest)
      {
        ghost var m;
        ghost var before, level0 := stream, level;
        p, m := LogLine(p, bufEnd, rest);
        AfterLine(before, level0, rest, m);
        rest := rest[m..];
      }
    }

    /** Any run of calls. */
    method Run(calls: seq<string>)
      requires Valid()
      requires forall i | 0 <= i < |calls| :: |calls[i]| + 4 <= STAGE && '\0' !in calls[i]
      modifies this, ring, stage
      ensures Valid()
      ensures stream == old(stream) + LoggedRun(old(level) < 0, calls)
    {
      var i := 0;
      ghost var rest := calls;
      while i < |calls|
        invariant i <= |calls| && rest == calls[i..] && Valid()
        invariant old(stream) + LoggedRun(old(level) < 0, calls) == stream + LoggedRun(level < 0, rest)
      {
        OpenLevelAfter(level, calls[i]);
        Regroup(stream, Logged(level < 0, calls[i]), LoggedRun(FreshAfter(level < 0, calls[i]), rest[1..]));
        var _ := Printk(calls[i]);
        rest := rest[1..];
        i := i + 1;
      }
    }

    /** `log append`: the words in separate calls log what one call on the sentence would. */
    method Append(words: seq<string>)
      requires Valid()
      requires forall i | 0 <= i < |words| :: |words[i]| + 4 <= STAGE && '\0' !in words[i]
      modifies this, ring, stage
      ensures Valid()
      ensures stream == old(stream) + Logged(old(level) < 0, Sentence(words))
      ensures words != [] ==> level == -1
    {
      var i := 0;
      ghost var rest := words;
      while i < |words|
        invariant i <= |words| && rest == words[i..] && Valid()
        invariant old(stream) + Logged(old(level) < 0, Sentence(words)) == stream + Logged(level < 0, Sentence(rest))
        invariant i == |words| > 0 ==> level == -1
      {
        var separator := if i < |words| - 1 then ' ' else '\n';
        AppendStep(stream, level < 0, rest, separator);
        OpenLevelAfter(level, words[i]);
        var _ := Printk(words[i]);
        SeparatorLevel(level, separator);
        var _ := Printk([separator]);
        rest := rest[1..];
        i := i + 1;
      }
    }

    /** The masked count of characters held. */
    method ShownCount() returns (count: nat)
      requires HeaderOk()
      ensures count == if |stream| < LEN then |stream| else 0
    {
      WrapDistance(|stream| - Count(), |stream|);
      count := Slot(if version == 2 then (end - start) % WORD else size);
    }

    /** `log show`. The count is masked, so a full ring shows nothing. */
    method Show() returns (shown: string)
      requires Valid()
      ensures shown == if |stream| < LEN then stream else ""
    {
      var count := ShownCount();
      shown := "";
      var i := 0;
      while i < count
        invariant i <= count && shown == stream[..i]
      {
        CellHolds(i);
        shown := shown + [Cell(i)];
        i := i + 1;
      }
    }
  }

  /** One turn of `log append`. */
  lemma AppendStep(stream: string, opening: bool, rest: seq<string>, c: char)
    requires rest != [] && c == if |rest| > 1 then ' ' else '\n'
    ensures stream + Logged(opening, Sentence(rest))
      == stream + Logged(opening, rest[0]) + Logged(FreshAfter(opening, rest[0]), [c])
         + Logged(c == '\n', Sentence(rest[1..]))
  {
    var w, tail := rest[0], Sentence(rest[1..]);
    SeparatorCutsNoTag(opening, w, c, tail);
    assert Sentence(rest) == w + [c] + tail;
    var x, y, z := Logged(opening, w), Logged(FreshAfter(opening, w), [c]), Logged(c == '\n', tail);
    Regroup(stream, x + y, z);
    Regroup(stream, x, y);
  }

  lemma {:induction false} SeparatorLevel(level: int, c: char)
    requires c == ' ' || c == '\n'
    ensures LevelAfter(level, [c]) < 0 <==> c == '\n'
    ensures c == '\n' ==> LevelAfter(level, [c]) == -1
  {
  }

  /** The two header forms stay in lockstep: after the same stream both describe the same
      range of the same ring. */
  lemma Lockstep(one: LogBuffer, two: LogBuffer)
    requires one.Valid() && two.Valid() && one.version != 2 && two.version == 2
    requires one.stream == two.stream
    ensures one.start == two.start && one.chars == two.chars
    ensures two.end == Wrap(one.start + one.size) && one.size == (two.end - two.start) % WORD
    ensures forall k: nat | k < one.size :: one.Cell(k) == two.Cell(k)
  {
    WrapDistance(|one.stream| - one.Count(), |one.stream|);
    forall k: nat | k < one.size ensures one.Cell(k) == two.Cell(k) {
      one.CellHolds(k);
      two.CellHolds(k);
    }
  }
}
