/** The rules of setenv by the names of the variables: what is written once, what cannot be deleted, and
    that nothing else is guarded. */
module EnvLaw {
  import opened Machine
  import opened EnvImage
  import opened EnvStore

  /** A serial number that is set stays, over every run of calls, on boards without the overwrite option. */
  lemma SerialIsWriteOnce(cfg: Config, size: nat, bs: seq<Binding>, qs: seq<Request>, value: string)
    requires !cfg.overwrite && Lookup(bs, "serial#") == Some(value)
    ensures Lookup(AfterAll(cfg, size, bs, qs), "serial#") == Some(value)
  {
    VendorParametersAreWriteOnce(cfg, size, bs, qs, "serial#", value);
  }

  /** So does an Ethernet address, unless it is the built-in one that may be replaced once. */
  lemma EthaddrIsWriteOnce(cfg: Config, size: nat, bs: seq<Binding>, qs: seq<Request>, value: string)
    requires !cfg.overwrite && Lookup(bs, "ethaddr") == Some(value) && cfg.ethaddrOnce != Some(value)
    ensures Lookup(AfterAll(cfg, size, bs, qs), "ethaddr") == Some(value)
  {
    VendorParametersAreWriteOnce(cfg, size, bs, qs, "ethaddr", value);
  }

  /** The name has a value that no call changes. */
  ghost predicate Fixed(cfg: Config, size: nat, bs: seq<Binding>, name: string) {
    forall q: Request | q.name == name && LegalRequest(q) :: Lookup(After(cfg, size, bs, q), name) == Lookup(bs, name)
  }

  /** A value is fixed exactly under the write-once rule. */
  lemma FixedExactly(cfg: Config, size: nat, bs: seq<Binding>, name: string, value: string)
    requires Lookup(bs, name) == Some(value) && NUL !in name && '=' !in name
    ensures Fixed(cfg, size, bs, name) <==>
            !cfg.overwrite && (name == "serial#" || (name == "ethaddr" && cfg.ethaddrOnce != Some(value)))
  {
    if !cfg.overwrite && (name == "serial#" || (name == "ethaddr" && cfg.ethaddrOnce != Some(value))) {
      forall q: Request | q.name == name && LegalRequest(q)
        ensures Lookup(After(cfg, size, bs, q), name) == Lookup(bs, name)
      {
        SetEnvIsMapUpdate(cfg, size, bs, q);
      }
    } else {
      var q := Request(name, [if value == "a" then "b" else "a"], true);
      SetEnvIsMapUpdate(cfg, size, bs, q);
    }
  }

  /** Every other variable takes any value that fits; and all but the console variables can be deleted. */
  lemma OrdinaryIsSet(cfg: Config, size: nat, bs: seq<Binding>, q: Request)
    requires '=' !in q.name && (cfg.overwrite || q.name !in ["serial#", "ethaddr"]) && q.hooksAccept
    ensures q.words != [] ==>
              Lookup(After(cfg, size, bs, q), q.name) == if Overflows(size, bs, q) then None else Some(Join(q.words))
    ensures q.words == [] && q.name !in ["stdin", "stdout", "stderr"] ==> Lookup(After(cfg, size, bs, q), q.name) == None
  {
    SetEnvIsMapUpdate(cfg, size, bs, q);
  }

  /** A console variable cannot be deleted, nor set to a device that the console does not take; nor the baud rate to
      one that is not supported. */
  lemma ConsoleStays(cfg: Config, size: nat, bs: seq<Binding>, q: Request)
    requires Lookup(bs, q.name).Some?
    requires || (q.name in ["stdin", "stdout", "stderr"] && (q.words == [] || !q.hooksAccept))
             || (q.name == "baudrate" && !q.hooksAccept)
    ensures After(cfg, size, bs, q) == bs && Fails(cfg, size, bs, q)
  {
  }

  /** A name with '=' in it is never stored. */
  lemma IllegalName(cfg: Config, size: nat, bs: seq<Binding>, q: Request)
    requires '=' in q.name
    ensures After(cfg, size, bs, q) == bs && Fails(cfg, size, bs, q)
  {
  }

  /** Words are joined by single blanks, and an entry is its name, '=' and its value, with NULs behind. */
  lemma ByTheByte()
    ensures Join(["run", "boot", "now"]) == "run boot now"
    ensures Image([Binding("a", "1"), Binding("b", "2")]) == ['a', '=', '1', '\0', 'b', '=', '2', '\0', '\0']
  {
    assert ["run", "boot", "now"][..2] == ["run", "boot"] && ["run", "boot"][..1] == ["run"];
    assert Join(["run", "boot"]) == "run boot";
    var bs := [Binding("a", "1"), Binding("b", "2")];
    assert bs[1..] == [Binding("b", "2")] && bs[1..][1..] == [];
    assert Text(bs[0]) == "a=1" && Text(bs[1]) == "b=2";
    assert Flat(bs[1..]) == ['b', '=', '2', '\0'];
  }
}
