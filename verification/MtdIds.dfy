/** The "mtdids" variable: device ids and the names of the devices. */
module MtdIds {
  import opened Machine
  import opened MtdText
  import opened MtdParts

  /** Which devices exist, with their size and geometry. */
  type Hardware = map<(DevType, nat), (nat, Geometry)>

  ghost predicate ValidHardware(hw: Hardware) {
    forall k | k in hw :: ValidId(MtdId(k.0, k.1, hw[k].0, "", hw[k].1))
  }

  /** MTD_DEV_TYPE. */
  function TypeName(kind: DevType): string {
    match kind
    case Nor => "nor"
    case Nand => "nand"
    case OneNand => "onenand"
  }

  /** strncmp with the length of `word`. */
  predicate StartsWith(s: string, word: string)
    ensures StartsWith(s, word) ==> |word| <= |s|
  {
    word == [] || (s != [] && s[0] == word[0] && StartsWith(s[1..], word[1..]))
  }

  /** id_parse: 'nand', 'nor' or 'onenand' and a number, kept in a byte. */
  function IdParse(s: string): (r: Option<((DevType, nat), string)>)
    ensures r.Some? ==> |r.value.1| < |s|
  {
    if StartsWith(s, "nand") then IdNumber(Nand, s[4..])
    else if StartsWith(s, "nor") then IdNumber(Nor, s[3..])
    else if StartsWith(s, "onenand") then IdNumber(OneNand, s[7..])
    else None
  }

  function IdNumber(kind: DevType, s: string): (r: Option<((DevType, nat), string)>)
    ensures r.Some? ==> |r.value.1| <= |s|
  {
    if !IsDigit(Head(s)) then None
    else
      var (n, rest) := StrToUl(s);
      Some(((kind, n % 256), rest))
  }

  /** The "=<mtd-id>" after a device id, and the text after the comma. */
  function IdName(hw: Hardware, key: (DevType, nat), s: string): (r: Option<(MtdId, string)>)
    ensures r.Some? ==> |r.value.1| < |s|
  {
    if Head(s) != '=' || key !in hw then None
    else
      var i := Find(s[1..], ',');
      Some((MtdId(key.0, key.1, hw[key].0, s[1..][..i], hw[key].1), if i == |s| - 1 then [] else s[i + 2..]))
  }

  /** One "<dev-id>=<mtd-id>" entry, and the text after it. */
  function IdEntry(hw: Hardware, s: string): (r: Option<(MtdId, string)>)
    ensures r.Some? ==> |r.value.1| < |s|
  {
    match IdParse(s)
    case None => None
    case Some((key, rest)) => IdName(hw, key, rest)
  }

  predicate Knows(ids: seq<MtdId>, kind: DevType, num: nat) {
    exists i | 0 <= i < |ids| :: ids[i].kind == kind && ids[i].num == num
  }

  function IdEntries(hw: Hardware, ids: seq<MtdId>, s: string): Option<seq<MtdId>>
    decreases |s|
  {
    if Head(s) == '\0' then Some(ids)
    else
      match IdEntry(hw, s)
      case None => None
      case Some((id, rest)) =>
        if Knows(ids, id.kind, id.num) then None else IdEntries(hw, ids + [id], rest)
  }

  /** parse_mtdids. */
  function ParseMtdids(hw: Hardware, s: string): Option<seq<MtdId>> {
    if Head(s) == '\0' then None else IdEntries(hw, [], s)
  }

  /** What parse_mtdids leaves in the list: nothing after most failures, but the entries before a
      device that does not exist. */
  function LeftIds(hw: Hardware, ids: seq<MtdId>, s: string): seq<MtdId>
    decreases |s|
  {
    if Head(s) == '\0' then ids
    else
      match IdParse(s)
      case None => []
      case Some((key, rest)) =>
        if Head(rest) != '=' then []
        else if key !in hw then ids
        else
          var (id, rest') := IdName(hw, key, rest).value;
          if Knows(ids, id.kind, id.num) then [] else LeftIds(hw, ids + [id], rest')
  }

  lemma {:induction false} LeftIdsValid(hw: Hardware, ids: seq<MtdId>, s: string)
    requires ValidHardware(hw) && ValidIds(ids)
    ensures ValidIds(LeftIds(hw, ids, s))
    ensures IdEntries(hw, ids, s).Some? ==> LeftIds(hw, ids, s) == IdEntries(hw, ids, s).value
    decreases |s|
  {
    if Head(s) != '\0' && IdEntry(hw, s).Some? {
      var (id, rest) := IdEntry(hw, s).value;
      assert ValidId(MtdId(id.kind, id.num, hw[(id.kind, id.num)].0, "", hw[(id.kind, id.num)].1));
      LeftIdsValid(hw, ids + [id], rest);
    }
  }

  lemma {:induction false} IdEntriesValid(hw: Hardware, ids: seq<MtdId>, s: string)
    requires ValidHardware(hw) && ValidIds(ids) && IdEntries(hw, ids, s).Some?
    ensures ValidIds(IdEntries(hw, ids, s).value)
    decreases |s|
  {
    if Head(s) != '\0' {
      var (id, rest) := IdEntry(hw, s).value;
      assert ValidId(MtdId(id.kind, id.num, hw[(id.kind, id.num)].0, "", hw[(id.kind, id.num)].1));
      IdEntriesValid(hw, ids + [id], rest);
    }
  }

  /** One entry of the list that is left. */
  lemma {:induction false} LeftStep(hw: Hardware, ids: seq<MtdId>, s: string)
    requires Head(s) != '\0'
    ensures MissingDevice(hw, s) ==> IdEntry(hw, s) == None && LeftIds(hw, ids, s) == ids
    ensures !MissingDevice(hw, s) && IdEntry(hw, s) == None ==> LeftIds(hw, ids, s) == []
    ensures IdEntry(hw, s).Some? ==>
              var (id, rest) := IdEntry(hw, s).value;
              LeftIds(hw, ids, s) == if Knows(ids, id.kind, id.num) then [] else LeftIds(hw, ids + [id], rest)
  {
  }

  /** The entry names a device that does not exist. */
  predicate MissingDevice(hw: Hardware, s: string) {
    IdParse(s).Some? && Head(IdParse(s).value.1) == '=' && IdParse(s).value.0 !in hw
  }
}
