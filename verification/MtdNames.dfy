/** Devices and numbers as text: what is printed for them is read back, and what the letters and prefixes of
    numbers stand for. */
module MtdNames {
  import opened Machine
  import opened MtdText
  import opened MtdParts
  import opened MtdIds

  // ---------------------------------------------------------- device ids

  lemma Spells(s: string)
    ensures StartsWith("nor" + s, "nor") && !StartsWith("nor" + s, "nand")
    ensures StartsWith("nand" + s, "nand")
    ensures StartsWith("onenand" + s, "onenand") && !StartsWith("onenand" + s, "nand") && !StartsWith("onenand" + s, "nor")
  {
    StartsItself("nor", s);
    StartsItself("nand", s);
    StartsItself("onenand", s);
    assert ("nor" + s)[1..][0] == 'o' && "nand"[1..][0] == 'a';
    assert ("onenand" + s)[0] == 'o' && "nand"[0] == "nor"[0] == 'n';
  }

  lemma {:induction false} StartsItself(word: string, s: string)
    ensures StartsWith(word + s, word)
  {
    if word != "" {
      assert (word + s)[1..] == word[1..] + s;
      StartsItself(word[1..], s);
    }
  }

  /** A printed number is read back, up to what follows it. */
  lemma NumberReads(n: nat, t: string)
    requires n < WORD && Head(t) in ['=', ',']
    ensures StrToUl(Number(n) + t) == (n, t)
  {
    if n == 0 {
      ZeroReads(t);
    } else {
      NumberParses(n, t);
    }
  }

  lemma ZeroReads(t: string)
    requires Head(t) in ['=', ',']
    ensures StrToUl("0" + t) == (0, t)
  {
    var s := "0" + t;
    assert s[1..] == t;
    assert Prefix(s) == (Octal, 1);
  }

  lemma NumberHead(n: nat, t: string)
    ensures IsDigit(Head(Number(n) + t))
  {
    NumberIsDigits(n);
  }

  /** "nor", "nand" and "onenand" with a number below 256 are the devices of these types. */
  lemma IdReads(num: nat, t: string)
    requires num < 256 && Head(t) in ['=', ',']
    ensures IdParse("nor" + (Number(num) + t)) == Some(((Nor, num), t))
    ensures IdParse("nand" + (Number(num) + t)) == Some(((Nand, num), t))
    ensures IdParse("onenand" + (Number(num) + t)) == Some(((OneNand, num), t))
  {
    var s := Number(num) + t;
    Spells(s);
    NumberOfId(Nor, num, t);
    NumberOfId(Nand, num, t);
    NumberOfId(OneNand, num, t);
    assert ("nor" + s)[3..] == s && ("nand" + s)[4..] == s && ("onenand" + s)[7..] == s;
  }

  lemma NumberOfId(kind: DevType, num: nat, t: string)
    requires num < 256 && Head(t) in ['=', ',']
    ensures IdNumber(kind, Number(num) + t) == Some(((kind, num), t))
  {
    NumberReads(num, t);
    NumberHead(num, t);
    NumberRead(kind, Number(num) + t, num, t);
  }

  lemma NumberRead(kind: DevType, s: string, num: nat, t: string)
    requires IsDigit(Head(s)) && StrToUl(s) == (num, t) && num < 256
    ensures IdNumber(kind, s) == Some(((kind, num), t))
  {
  }

  /** The same of the name that is printed for a type. */
  lemma IdRoundTrip(kind: DevType, num: nat, t: string)
    requires num < 256 && Head(t) in ['=', ',']
    ensures IdParse(TypeName(kind) + (Number(num) + t)) == Some(((kind, num), t))
  {
    IdReads(num, t);
  }

  // ------------------------------------------------------------ lists of ids

  /** An entry of mtdids, with the text after it. */
  function IdText(id: MtdId, t: string): string {
    TypeName(id.kind) + (Number(id.num) + ("=" + (id.name + t)))
  }

  function IdsText(ids: seq<MtdId>): string {
    if ids == [] then "" else if |ids| == 1 then IdText(ids[0], "") else IdText(ids[0], "," + IdsText(ids[1..]))
  }

  /** The id of a device that exists, with a name that may stand in the list. */
  predicate Listed(hw: Hardware, id: MtdId) {
    id.num < 256 && ',' !in id.name && (id.kind, id.num) in hw && hw[(id.kind, id.num)] == (id.size, id.geometry)
  }

  predicate DistinctKeys(ids: seq<MtdId>) {
    forall i, j | 0 <= i < j < |ids| :: (ids[i].kind, ids[i].num) != (ids[j].kind, ids[j].num)
  }

  lemma {:induction false} NameEnds(name: string, t: string)
    requires ',' !in name && (t == "" || t[0] == ',')
    ensures Find(name + t, ',') == |name|
  {
    if name == "" {
      assert name + t == t;
    } else {
      assert (name + t)[0] == name[0] && (name + t)[1..] == name[1..] + t;
      NameEnds(name[1..], t);
    }
  }

  lemma NameReads(hw: Hardware, id: MtdId, t: string)
    requires Listed(hw, id) && (t == "" || t[0] == ',')
    ensures IdName(hw, (id.kind, id.num), "=" + (id.name + t)) == Some((id, if t == "" then "" else t[1..]))
  {
    var s := "=" + (id.name + t);
    assert s[1..] == id.name + t;
    NameEnds(id.name, t);
    assert (id.name + t)[..|id.name|] == id.name;
    if t != "" { assert s[|id.name| + 2..] == t[1..]; }
  }

  lemma EntryReads(hw: Hardware, id: MtdId, t: string)
    requires Listed(hw, id) && (t == "" || t[0] == ',')
    ensures IdEntry(hw, IdText(id, t)) == Some((id, if t == "" then "" else t[1..])) && Head(IdText(id, t)) != '\0'
  {
    IdRoundTrip(id.kind, id.num, "=" + (id.name + t));
    NameReads(hw, id, t);
  }

  lemma {:induction false} ListReads(hw: Hardware, done: seq<MtdId>, ids: seq<MtdId>)
    requires DistinctKeys(done + ids) && Printable(hw, ids) && AllExist(hw, ids)
    ensures IdEntries(hw, done, IdsText(ids)) == Some(done + ids)
    decreases |ids|
  {
    if ids == [] {
      assert done + ids == done;
    } else {
      NotKnown(done, ids);
      EntryGoesOn(hw, done, ids);
      ListTail(hw, ids);
      assert done + [ids[0]] + ids[1..] == done + ids;
      ListReads(hw, done + [ids[0]], ids[1..]);
    }
  }

  lemma ListTail(hw: Hardware, ids: seq<MtdId>)
    requires Printable(hw, ids) && AllExist(hw, ids) && ids != []
    ensures Printable(hw, ids[1..]) && AllExist(hw, ids[1..])
  {
    forall i | 0 <= i < |ids| - 1 ensures ids[1..][i] == ids[i + 1] {
    }
  }

  lemma NotKnown(done: seq<MtdId>, ids: seq<MtdId>)
    requires DistinctKeys(done + ids) && ids != []
    ensures !Knows(done, ids[0].kind, ids[0].num)
  {
    var all := done + ids;
    assert all[|done|] == ids[0];
    forall i | 0 <= i < |done| ensures (done[i].kind, done[i].num) != (ids[0].kind, ids[0].num) {
      assert all[i] == done[i];
    }
  }

  /** A name that may stand in the list, and the number of a device. */
  predicate Nameable(id: MtdId) { id.num < 256 && ',' !in id.name }

  lemma MissingReads(hw: Hardware, id: MtdId, t: string)
    requires Nameable(id) && (id.kind, id.num) !in hw
    ensures IdEntry(hw, IdText(id, t)) == None && Head(IdText(id, t)) != '\0'
  {
    IdRoundTrip(id.kind, id.num, "=" + (id.name + t));
  }

  predicate AllExist(hw: Hardware, ids: seq<MtdId>) { forall i | 0 <= i < |ids| :: (ids[i].kind, ids[i].num) in hw }

  /** Names that may stand in the list; of devices that exist, with what is known of them. */
  predicate Printable(hw: Hardware, ids: seq<MtdId>) {
    forall i | 0 <= i < |ids| :: Nameable(ids[i]) && ((ids[i].kind, ids[i].num) in hw ==> Listed(hw, ids[i]))
  }

  lemma {:induction false} ListFails(hw: Hardware, done: seq<MtdId>, ids: seq<MtdId>)
    requires DistinctKeys(done) && Printable(hw, ids) && !(DistinctKeys(done + ids) && AllExist(hw, ids))
    ensures IdEntries(hw, done, IdsText(ids)) == None
    decreases |ids|
  {
    assert done + [] == done;
    if ids != [] {
      var id, rest := ids[0], ids[1..];
      if (id.kind, id.num) !in hw || Knows(done, id.kind, id.num) {
        EntryFails(hw, done, ids);
      } else {
        EntryGoesOn(hw, done, ids);
        OneMoreKey(done, id);
        TailStillFails(hw, done, ids);
        ListFails(hw, done + [id], rest);
      }
    }
  }

  lemma EntryFails(hw: Hardware, done: seq<MtdId>, ids: seq<MtdId>)
    requires ids != [] && Printable(hw, ids) && ((ids[0].kind, ids[0].num) !in hw || Knows(done, ids[0].kind, ids[0].num))
    ensures IdEntries(hw, done, IdsText(ids)) == None
  {
    var id, t := ids[0], if |ids| == 1 then "" else "," + IdsText(ids[1..]);
    if (id.kind, id.num) !in hw { MissingReads(hw, id, t); } else { EntryReads(hw, id, t); }
  }

  lemma EntryGoesOn(hw: Hardware, done: seq<MtdId>, ids: seq<MtdId>)
    requires ids != [] && Listed(hw, ids[0]) && !Knows(done, ids[0].kind, ids[0].num)
    ensures IdEntries(hw, done, IdsText(ids)) == IdEntries(hw, done + [ids[0]], IdsText(ids[1..]))
  {
    var t := if |ids| == 1 then "" else "," + IdsText(ids[1..]);
    EntryReads(hw, ids[0], t);
    assert |ids| > 1 ==> t[1..] == IdsText(ids[1..]);
  }

  lemma TailStillFails(hw: Hardware, done: seq<MtdId>, ids: seq<MtdId>)
    requires ids != [] && Printable(hw, ids) && (ids[0].kind, ids[0].num) in hw
    requires !(DistinctKeys(done + ids) && AllExist(hw, ids))
    ensures Printable(hw, ids[1..]) && !(DistinctKeys(done + [ids[0]] + ids[1..]) && AllExist(hw, ids[1..]))
  {
    assert done + [ids[0]] + ids[1..] == done + ids;
    if !AllExist(hw, ids) {
      var i :| 0 <= i < |ids| && (ids[i].kind, ids[i].num) !in hw;
      assert ids[1..][i - 1] == ids[i];
    }
  }

  lemma OneMoreKey(done: seq<MtdId>, id: MtdId)
    requires DistinctKeys(done) && !Knows(done, id.kind, id.num)
    ensures DistinctKeys(done + [id])
  {
  }

  lemma TextStarts(ids: seq<MtdId>)
    requires ids != []
    ensures Head(IdsText(ids)) != '\0'
  {
  }

  /** parse_mtdids takes back every list written as "<type><number>=<name>,...", exactly when all the devices exist and
      none is named twice. */
  lemma IdsRoundTrip(hw: Hardware, ids: seq<MtdId>)
    requires ids != [] && Printable(hw, ids)
    ensures ParseMtdids(hw, IdsText(ids)) == if DistinctKeys(ids) && AllExist(hw, ids) then Some(ids) else None
  {
    TextStarts(ids);
    assert [] + ids == ids;
    if DistinctKeys(ids) && AllExist(hw, ids) {
      ListReads(hw, [], ids);
    } else {
      ListFails(hw, [], ids);
    }
  }

  // -------------------------------------------------------------- numbers

  /** The last `width` digits of a number in base `base`. */
  function InBase(n: nat, base: nat, width: nat): string
    requires 2 <= base <= 16
  {
    if width == 0 then "" else InBase(n / base, base, width - 1) + [HexDigit(n % base, 'a')]
  }

  function Limit(base: nat, width: nat): nat { if width == 0 then 1 else base * Limit(base, width - 1) }

  predicate BaseOf(r: Radix, base: nat) { (r, base) in [(Octal, 8), (Decimal, 10), (Radix.Hex, 16)] }

  lemma DigitReads(d: nat, r: Radix, base: nat)
    requires BaseOf(r, base) && d < base
    ensures IsDigitOf(HexDigit(d, 'a'), r) && DigitValue(HexDigit(d, 'a')) == d
  {
  }

  lemma {:induction false} DigitsOn(d: string, t: string, r: Radix, acc: nat)
    requires forall i | 0 <= i < |d| :: IsDigitOf(d[i], r)
    ensures Digits(d + t, r, acc) == Digits(t, r, Digits(d, r, acc).0)
  {
    if d == [] {
      assert d + t == t;
    } else {
      assert (d + t)[0] == d[0] && (d + t)[1..] == d[1..] + t;
      DigitsOn(d[1..], t, r, Shifted(acc, r, DigitValue(d[0])));
    }
  }

  lemma {:induction false} AllDigits(n: nat, r: Radix, base: nat, width: nat)
    requires BaseOf(r, base)
    ensures forall i | 0 <= i < |InBase(n, base, width)| :: IsDigitOf(InBase(n, base, width)[i], r)
    ensures |InBase(n, base, width)| == width
  {
    if width > 0 {
      AllDigits(n / base, r, base, width - 1);
      DigitReads(n % base, r, base);
    }
  }

  lemma OneMore(acc: nat, d: nat, r: Radix, base: nat)
    requires BaseOf(r, base) && d < base
    ensures Digits([HexDigit(d, 'a')], r, acc).0 == Wrap(acc * base + d)
  {
    DigitReads(d, r, base);
    assert [HexDigit(d, 'a')][1..] == [];
  }

  lemma {:induction false} BaseValue(n: nat, r: Radix, base: nat, width: nat)
    requires BaseOf(r, base) && n < WORD && n < Limit(base, width)
    ensures Digits(InBase(n, base, width), r, 0).0 == n
    decreases width
  {
    if width > 0 {
      var q, d := n / base, n % base;
      assert n == q * base + d;
      assert q < Limit(base, width - 1);
      BaseValue(q, r, base, width - 1);
      AllDigits(q, r, base, width - 1);
      DigitsOn(InBase(q, base, width - 1), [HexDigit(d, 'a')], r, 0);
      OneMore(q, d, r, base);
    }
  }

  lemma BaseReads(n: nat, r: Radix, base: nat, width: nat, t: string)
    requires BaseOf(r, base) && n < WORD && n < Limit(base, width) && (t == "" || !IsDigitOf(t[0], r))
    ensures Digits(InBase(n, base, width) + t, r, 0) == (n, t)
  {
    AllDigits(n, r, base, width);
    BaseValue(n, r, base, width);
    DigitsOn(InBase(n, base, width), t, r, 0);
  }

  /** A number behind "0x" is hexadecimal, with any number of digits; one behind "0" is octal. */
  lemma PrefixedReads(n: nat, width: nat, t: string)
    requires n < WORD && width > 0
    ensures n < Limit(16, width) && !IsXDigit(Head(t)) ==> StrToUl("0x" + (InBase(n, 16, width) + t)) == (n, t)
    ensures n < Limit(8, width) && !IsDigit(Head(t)) ==> StrToUl("0" + (InBase(n, 8, width) + t)) == (n, t)
  {
    if n < Limit(16, width) && !IsXDigit(Head(t)) { HexReads(n, width, t); }
    if n < Limit(8, width) && !IsDigit(Head(t)) { OctalReads(n, width, t); }
  }

  lemma HexReads(n: nat, width: nat, t: string)
    requires n < WORD && width > 0 && n < Limit(16, width) && !IsXDigit(Head(t))
    ensures StrToUl("0x" + (InBase(n, 16, width) + t)) == (n, t)
  {
    var digits := InBase(n, 16, width) + t;
    var s := "0x" + digits;
    AllDigits(n, Radix.Hex, 16, width);
    BaseReads(n, Radix.Hex, 16, width, t);
    assert s[0] == '0' && s[1] == 'x' && s[2] == InBase(n, 16, width)[0] && s[2..] == digits;
  }

  lemma OctalReads(n: nat, width: nat, t: string)
    requires n < WORD && width > 0 && n < Limit(8, width) && !IsDigit(Head(t))
    ensures StrToUl("0" + (InBase(n, 8, width) + t)) == (n, t)
  {
    var digits := InBase(n, 8, width) + t;
    var s := "0" + digits;
    AllDigits(n, Octal, 8, width);
    NoOctalDigit(t);
    BaseReads(n, Octal, 8, width, t);
    assert s[0] == '0' && s[1] == InBase(n, 8, width)[0] && s[1..] == digits;
  }

  lemma NoOctalDigit(t: string)
    requires !IsDigit(Head(t))
    ensures t == "" || !IsDigitOf(t[0], Octal)
  {
  }

  /** The letters K, M and G, large and small, multiply by 2^10, 2^20 and 2^30. */
  lemma LetterReads(n: nat, c: char, unit: nat, t: string)
    requires (c, unit) in [('k', 0x400), ('K', 0x400), ('m', 0x10_0000), ('M', 0x10_0000), ('g', 0x4000_0000), ('G', 0x4000_0000)]
    requires n * unit < WORD
    ensures MemsizeParse(Number(n) + ([c] + t)) == (n * unit, t)
  {
    var s := [c] + t;
    assert s[1..] == t;
    if n == 0 {
      assert ("0" + s)[1..] == s && Prefix("0" + s) == (Octal, 1);
    } else {
      NumberParses(n, s);
    }
    Units(n, unit);
  }

  lemma Units(n: nat, unit: nat)
    requires unit in [0x400, 0x10_0000, 0x4000_0000] && n * unit < WORD
    ensures Scale(n, if unit == 0x400 then 1 else if unit == 0x10_0000 then 2 else 3) == n * unit
  {
  }

  /** The generated name of a partition spells its size and its offset. */
  lemma NameSpells(size: nat, offset: nat)
    requires size < WORD && offset < WORD
    ensures var (n, rest) := StrToUl(GeneratedName(size, offset));
            n == size && Head(rest) == '@' && StrToUl(rest[1..]) == (offset, "") && |GeneratedName(size, offset)| == 21
  {
    var w: nat := 8;
    HexIs(size, w);
    HexIs(offset, w);
    EightDigits();
    AllDigits(size, Radix.Hex, 16, w);
    AllDigits(offset, Radix.Hex, 16, w);
    var h1, h2 := InBase(size, 16, w), InBase(offset, 16, w);
    HexReads(offset, w, "");
    HexReads(size, w, "@" + ("0x" + (h2 + "")));
    TwoNumbers(h1, h2);
  }

  lemma TwoNumbers(h1: string, h2: string)
    ensures "0x" + h1 + "@0x" + h2 == "0x" + (h1 + ("@" + ("0x" + (h2 + ""))))
    ensures ("@" + ("0x" + (h2 + "")))[1..] == "0x" + (h2 + "")
  {
  }

  lemma {:induction false} HexIs(n: nat, width: nat)
    ensures MtdParts.Hex(n, width) == InBase(n, 16, width)
  {
    if width > 0 { HexIs(n / 16, width - 1); }
  }

  lemma EightDigits()
    ensures Limit(16, 8) == WORD
  {
    assert Limit(16, 4) == 0x1_0000;
  }

  /** A partition without a name gets a generated one, and says so. */
  lemma NewPartIs(size: nat, offset: nat, name: string, ro: bool)
    requires size < WORD && offset < WORD
    ensures var p := NewPart(size, offset, None, ro);
            p.autoName && StrToUl(p.name).0 == size && p.size == size && p.offset == offset && p.ro == ro
    ensures var p := NewPart(size, offset, Some(name), ro);
            !p.autoName && p.name == name && p.size == size && p.offset == offset && p.ro == ro
  {
    NameSpells(size, offset);
  }
}
