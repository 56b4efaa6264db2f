/** What the log should hold: the logged text with a level tag in front of every line
    that does not bring its own. */
module LogText {

  /** A level tag: '<', a digit from 0 to 7, '>'. */
  predicate HasTag(s: string) {
    |s| >= 3 && s[0] == '<' && '0' <= s[1] <= '7' && s[2] == '>'
  }

  /** What is put in front of `s`; `opening` says that `s` begins a line. */
  function Tag(opening: bool, s: string): string {
    if opening && !HasTag(s) then "<4>" else ""
  }

  /** What one call logs for the text `s`. */
  function Logged(opening: bool, s: string): string
    decreases s
  {
    if s == "" then "" else Tag(opening, s) + [s[0]] + Logged(s[0] == '\n', s[1..])
  }

  /** After `s`, the next character begins a line. */
  predicate FreshAfter(opening: bool, s: string) {
    if s == "" then opening else s[|s| - 1] == '\n'
  }

  /** The level of the line left open after `s`; -1 when no line is open. */
  function LevelAfter(level: int, s: string): int
    decreases s
  {
    if s == "" then level
    else LevelAfter(if s[0] == '\n' then -1 else OpenLevel(level, s), s[1..])
  }

  /** The level of the line that `s` begins or continues. */
  function OpenLevel(level: int, s: string): int {
    if level >= 0 then level else if HasTag(s) then s[1] as int - '0' as int else 4
  }

  lemma {:induction false} OpenLevelAfter(level: int, s: string)
    ensures LevelAfter(level, s) < 0 <==> FreshAfter(level < 0, s)
    decreases s
  {
    if s != "" {
      OpenLevelAfter(if s[0] == '\n' then -1 else OpenLevel(level, s), s[1..]);
    }
  }

  // ------------------------------------------------------------ line by line

  ghost predicate OneLine(s: string, m: nat) {
    0 < m <= |s| && (forall i | 0 <= i < m - 1 :: s[i] != '\n') && (s[m - 1] == '\n' || m == |s|)
  }

  lemma LineStep(t: string, c: string, x: string, y: string)
    ensures t + c + (x + y) == t + (c + x) + y
  {
  }

  /** A whole line is logged as it is, behind its tag. */
  lemma {:induction false} LoggedLine(opening: bool, s: string, m: nat)
    requires OneLine(s, m)
    ensures Logged(opening, s) == Tag(opening, s) + s[..m] + Logged(true, s[m..])
    decreases m
  {
    var t := s[1..];
    if m > 1 {
      LoggedLine(false, t, m - 1);
      assert t[m - 1..] == s[m..] && s[..m] == [s[0]] + t[..m - 1];
      LineStep(Tag(opening, s), [s[0]], t[..m - 1], Logged(true, s[m..]));
      assert Logged(false, t) == t[..m - 1] + Logged(true, s[m..]);
    } else {
      assert s[..m] == [s[0]];
      assert s[0] != '\n' ==> t == "";
    }
  }

  /** The level of a line lasts to its end. */
  lemma {:induction false} LevelLine(level: int, s: string, m: nat)
    requires OneLine(s, m)
    ensures LevelAfter(level, s) ==
      if s[m - 1] == '\n' then LevelAfter(-1, s[m..]) else OpenLevel(level, s)
    decreases m
  {
    if m > 1 {
      LevelLine(OpenLevel(level, s), s[1..], m - 1);
      assert s[1..][m - 1..] == s[m..];
    } else if s[0] != '\n' {
      assert s[1..] == "";
    }
  }

  /** `s` cut after every line feed. */
  function Lines(s: string): seq<string> {
    if s == "" then []
    else
      var rest := Lines(s[1..]);
      if s[0] == '\n' || rest == [] then [[s[0]]] + rest else [[s[0]] + rest[0]] + rest[1..]
  }

  function Concat(parts: seq<string>): string {
    if parts == [] then "" else parts[0] + Concat(parts[1..])
  }

  function TagLine(line: string): string {
    if HasTag(line) then line else "<4>" + line
  }

  function TagLines(lines: seq<string>): seq<string> {
    if lines == [] then [] else [TagLine(lines[0])] + TagLines(lines[1..])
  }

  lemma {:induction false} FirstLine(s: string)
    requires s != ""
    ensures Lines(s) != [] && OneLine(s, |Lines(s)[0]|) && Lines(s)[0] == s[..|Lines(s)[0]|]
    ensures Lines(s[|Lines(s)[0]|..]) == Lines(s)[1..]
  {
    var t := s[1..];
    if s[0] != '\n' && t != "" {
      FirstLine(t);
      var m := |Lines(t)[0]|;
      assert s[m + 1..] == t[m..];
      assert [s[0]] + t[..m] == s[..m + 1];
    }
  }

  lemma {:induction false} LinesRejoin(s: string)
    ensures Concat(Lines(s)) == s
    decreases |s|
  {
    if s != "" {
      FirstLine(s);
      LinesRejoin(s[|Lines(s)[0]|..]);
    }
  }

  /** One call on a line start logs exactly its lines, each tagged once. */
  lemma {:induction false} LoggedIsTaggedLines(s: string)
    ensures Logged(true, s) == Concat(TagLines(Lines(s)))
    decreases |s|
  {
    if s != "" {
      FirstLine(s);
      var m := |Lines(s)[0]|;
      LoggedLine(true, s, m);
      LoggedIsTaggedLines(s[m..]);
      TaggedLine(s, m);
      TagFirst(Lines(s));
    }
  }

  lemma TagFirst(lines: seq<string>)
    requires lines != []
    ensures Concat(TagLines(lines)) == TagLine(lines[0]) + Concat(TagLines(lines[1..]))
  {
    assert TagLines(lines)[1..] == TagLines(lines[1..]);
  }

  lemma TaggedLine(s: string, m: nat)
    requires OneLine(s, m)
    ensures Tag(true, s) + s[..m] == TagLine(s[..m])
  {
    TagIsInLine(s, m);
  }

  /** A tag holds no line feed, so it never reaches past its line. */
  lemma TagIsInLine(s: string, m: nat)
    requires OneLine(s, m)
    ensures HasTag(s) <==> HasTag(s[..m])
  {
  }

  /** In the middle of a line only the lines after it are tagged. */
  lemma {:induction false} LoggedMidLine(s: string)
    requires s != ""
    ensures Logged(false, s) == Lines(s)[0] + Concat(TagLines(Lines(s)[1..]))
  {
    FirstLine(s);
    var m := |Lines(s)[0]|;
    LoggedLine(false, s, m);
    LoggedIsTaggedLines(s[m..]);
  }

  // ------------------------------------------------------- tagged everywhere

  /** A line of `t` begins at `k`. */
  ghost predicate LineStart(opening: bool, t: string, k: nat) {
    k < |t| && if k == 0 then opening else t[k - 1] == '\n'
  }

  ghost predicate AllTagged(opening: bool, t: string) {
    forall k: nat | LineStart(opening, t, k) :: HasTag(t[k..])
  }

  lemma AllTaggedTail(opening: bool, t: string)
    requires t != ""
    ensures AllTagged(opening, t) <==> (opening ==> HasTag(t)) && AllTagged(t[0] == '\n', t[1..])
  {
    var u := t[1..];
    assert t[0..] == t;
    if AllTagged(opening, t) {
      assert opening ==> LineStart(opening, t, 0);
      forall k: nat | LineStart(t[0] == '\n', u, k) ensures HasTag(u[k..]) {
        assert LineStart(opening, t, k + 1);
        assert t[k + 1..] == u[k..];
      }
    }
    if (opening ==> HasTag(t)) && AllTagged(t[0] == '\n', u) {
      forall k: nat | LineStart(opening, t, k) ensures HasTag(t[k..]) {
        if k > 0 {
          assert LineStart(t[0] == '\n', u, k - 1);
          assert t[k..] == u[k - 1..];
        }
      }
    }
  }

  lemma MidTag(opening: bool, a: string, t: string)
    requires forall i | 0 <= i < |a| :: a[i] != '\n'
    requires a != "" && AllTagged(false, t) && (opening ==> HasTag(a + t))
    ensures AllTagged(opening, a + t)
  {
    var whole := a + t;
    forall k: nat | LineStart(opening, whole, k) ensures HasTag(whole[k..]) {
      assert whole[0..] == whole;
      if k > 0 {
        assert k > |a|;
        assert LineStart(false, t, k - |a|);
        assert whole[k..] == t[k - |a|..];
      }
    }
  }

  /** Every line of the log is tagged. */
  lemma {:induction false} LoggedAllTagged(opening: bool, s: string)
    ensures AllTagged(opening, Logged(opening, s))
    decreases s
  {
    if s != "" {
      var rest := Logged(s[0] == '\n', s[1..]);
      LoggedAllTagged(s[0] == '\n', s[1..]);
      var t := [s[0]] + rest;
      assert t[1..] == rest;
      if Tag(opening, s) == "" {
        if opening { KeepsTag(s); }
        assert Logged(opening, s) == t;
        AllTaggedTail(opening, t);
      } else {
        AllTaggedTail(false, t);
        MidTag(opening, "<4>", t);
        assert Logged(opening, s) == "<4>" + t;
      }
    }
  }

  /** The tag a line brings is logged as it is. */
  lemma KeepsTag(s: string)
    requires HasTag(s)
    ensures HasTag([s[0]] + Logged(s[0] == '\n', s[1..]))
  {
  }

  /** Text is logged unchanged exactly when all its lines are tagged. */
  lemma {:induction false} UnchangedExactlyWhenTagged(opening: bool, t: string)
    ensures Logged(opening, t) == t <==> AllTagged(opening, t)
    ensures |Logged(opening, t)| >= |t|
    decreases t
  {
    if t != "" {
      var rest := Logged(t[0] == '\n', t[1..]);
      UnchangedExactlyWhenTagged(t[0] == '\n', t[1..]);
      AllTaggedTail(opening, t);
      assert t == [t[0]] + t[1..];
      if Tag(opening, t) == "" {
        assert Logged(opening, t) == [t[0]] + rest;
        assert rest == Logged(opening, t)[1..];
      } else {
        assert |Logged(opening, t)| == 3 + 1 + |rest|;
      }
    }
  }

  /** Logging what was logged adds nothing. */
  lemma {:induction false} LoggingIsIdempotent(opening: bool, s: string)
    ensures Logged(opening, Logged(opening, s)) == Logged(opening, s)
  {
    LoggedAllTagged(opening, s);
    UnchangedExactlyWhenTagged(opening, Logged(opening, s));
  }

  // -------------------------------------------------------- several calls

  /** A tag of `a + b` at a line start of `a` that `a` alone does not show. */
  ghost predicate Straddles(opening: bool, a: string, b: string) {
    exists k: nat :: LineStart(opening, a, k) && CutTag(a[k..], b)
  }

  predicate CutTag(line: string, b: string) {
    !HasTag(line) && HasTag(line + b)
  }

  lemma StraddlesTail(opening: bool, a: string, b: string)
    requires a != ""
    ensures Straddles(opening, a, b) <==> (opening && CutTag(a, b)) || Straddles(a[0] == '\n', a[1..], b)
  {
    var u := a[1..];
    assert a[0..] == a;
    if Straddles(opening, a, b) {
      var k: nat :| LineStart(opening, a, k) && CutTag(a[k..], b);
      if k > 0 {
        assert a[k..] == u[k - 1..];
        assert LineStart(a[0] == '\n', u, k - 1) && CutTag(u[k - 1..], b);
      }
    }
    if opening && CutTag(a, b) {
      assert LineStart(opening, a, 0) && CutTag(a[0..], b);
    }
    if Straddles(a[0] == '\n', u, b) {
      var k: nat :| LineStart(a[0] == '\n', u, k) && CutTag(u[k..], b);
      assert a[k + 1..] == u[k..];
      assert LineStart(opening, a, k + 1) && CutTag(a[k + 1..], b);
    }
  }

  /** Two calls log what one call on the joined text logs, exactly when the cut does not
      go through a tag. */
  lemma {:induction false} SplitExactly(opening: bool, a: string, b: string)
    ensures Logged(opening, a + b) == Logged(opening, a) + Logged(FreshAfter(opening, a), b)
      <==> !Straddles(opening, a, b)
    ensures |Logged(opening, a + b)| <= |Logged(opening, a)| + |Logged(FreshAfter(opening, a), b)|
    decreases a
  {
    if a == "" {
      assert a + b == b;
    } else {
      var u := a[1..];
      var nl := a[0] == '\n';
      SplitExactly(nl, u, b);
      StraddlesTail(opening, a, b);
      assert (a + b)[1..] == u + b;
      assert FreshAfter(nl, u) == FreshAfter(opening, a);
      TagCut(opening, a, b);
      SplitStep(Tag(opening, a + b), Tag(opening, a), a[0], Logged(nl, u + b), Logged(nl, u),
                Logged(FreshAfter(opening, a), b));
    }
  }

  /** Only a tag that is cut is seen by one call and not by two. */
  lemma TagCut(opening: bool, a: string, b: string)
    requires a != ""
    ensures Tag(opening, a + b) == Tag(opening, a) <==> !(opening && CutTag(a, b))
    ensures Tag(opening, a + b) == Tag(opening, a) || (Tag(opening, a + b) == "" && Tag(opening, a) == "<4>")
  {
    if HasTag(a) { assert HasTag(a + b); }
  }

  lemma SplitStep(t: string, t': string, c: char, x: string, y: string, z: string)
    requires |x| <= |y| + |z|
    requires t == t' || (t == "" && t' == "<4>")
    ensures t + [c] + x == (t' + [c] + y) + z <==> t == t' && x == y + z
  {
    if t == t' {
      assert (t' + [c] + y) + z == t + [c] + (y + z);
      var p := t + [c];
      assert (p + x)[|p|..] == x && (p + (y + z))[|p|..] == y + z;
    } else {
      assert |t + [c] + x| < |(t' + [c] + y) + z|;
    }
  }

  /** What a run of calls logs. */
  function LoggedRun(opening: bool, calls: seq<string>): string
    decreases calls
  {
    if calls == [] then ""
    else Logged(opening, calls[0]) + LoggedRun(FreshAfter(opening, calls[0]), calls[1..])
  }

  lemma {:induction false} FreshAfterLogged(opening: bool, s: string)
    ensures FreshAfter(opening, Logged(opening, s)) == FreshAfter(opening, s)
    ensures Logged(opening, s) == "" <==> s == ""
    decreases s
  {
    if s != "" {
      FreshAfterLogged(s[0] == '\n', s[1..]);
      var rest := Logged(s[0] == '\n', s[1..]);
      if rest != "" {
        assert Logged(opening, s)[|Logged(opening, s)| - 1] == rest[|rest| - 1];
      }
    }
  }

  lemma AllTaggedConcat(opening: bool, a: string, b: string)
    requires AllTagged(opening, a) && AllTagged(FreshAfter(opening, a), b)
    ensures AllTagged(opening, a + b)
  {
    var t := a + b;
    forall k: nat | LineStart(opening, t, k) ensures HasTag(t[k..]) {
      if k < |a| {
        assert LineStart(opening, a, k);
        assert t[k..] == a[k..] + b;
      } else {
        assert LineStart(FreshAfter(opening, a), b, k - |a|);
        assert t[k..] == b[k - |a|..];
      }
    }
  }

  /** However text is cut into calls, every line of the log is tagged. */
  lemma {:induction false} RunAllTagged(opening: bool, calls: seq<string>)
    ensures AllTagged(opening, LoggedRun(opening, calls))
    decreases calls
  {
    if calls != [] {
      LoggedAllTagged(opening, calls[0]);
      FreshAfterLogged(opening, calls[0]);
      RunAllTagged(FreshAfter(opening, calls[0]), calls[1..]);
      AllTaggedConcat(opening, Logged(opening, calls[0]), LoggedRun(FreshAfter(opening, calls[0]), calls[1..]));
    }
  }

  /** Words with a blank between them and a line feed at the end. */
  function Sentence(words: seq<string>): string {
    if words == [] then ""
    else if |words| == 1 then words[0] + "\n"
    else words[0] + " " + Sentence(words[1..])
  }

  /** A blank cuts no tag: logging a word and a separator apart is logging them together. */
  lemma {:induction false} SeparatorCutsNoTag(opening: bool, word: string, c: char, rest: string)
    requires c == ' ' || c == '\n'
    ensures Logged(opening, word + [c] + rest)
      == Logged(opening, word) + Logged(FreshAfter(opening, word), [c])
         + Logged(c == '\n', rest)
  {
    SplitExactly(opening, word, [c]);
    forall k: nat | LineStart(opening, word, k) ensures !CutTag(word[k..], [c]) {}
    var w := word + [c];
    SplitExactly(opening, w, rest);
    forall k: nat | LineStart(opening, w, k) ensures !CutTag(w[k..], rest) {
      assert w[k..][|w| - k - 1] == c;
      assert (w[k..] + rest)[|w| - k - 1] == c;
    }
    if c == ' ' && w[|w| - 1] == ' ' {
      assert FreshAfter(opening, w) == false;
    }
  }

  /** Tags and levels, character by character. */
  lemma TagsByTheByte(rest: string)
    ensures HasTag("<0>" + rest) && HasTag("<7>" + rest) && !HasTag("<8>" + rest) && !HasTag("<4" + "]" + rest)
    ensures OpenLevel(-1, "<5>" + rest) == 5 && OpenLevel(-1, "boot" + rest) == 4 && OpenLevel(3, "<5>" + rest) == 3
    ensures Sentence(["a", "b"]) == "a b\n"
  {
    assert ["a", "b"][1..] == ["b"] && Sentence(["b"]) == "b\n";
  }
}
