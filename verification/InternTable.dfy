/** Strings to dense ids, so that filters compare integers. */
module InternTables {

  /** A well-formed table of names: id 0 is the empty string, no name twice. */
  ghost predicate ValidNames(names: seq<string>) {
    names != [] && names[0] == "" && forall i, j :: 0 <= i < j < |names| ==> names[i] != names[j]
  }

  /** The table after interning `s`. */
  function Interned(names: seq<string>, s: string): seq<string> {
    if s in names then names else names + [s]
  }

  /** The first position of `s`; its length when `s` is not there. */
  function IndexOf(names: seq<string>, s: string): (i: nat)
    ensures i <= |names| && (i < |names| <==> s in names)
    ensures i < |names| ==> names[i] == s
  {
    if names == [] then 0 else if names[0] == s then 0 else 1 + IndexOf(names[1..], s)
  }

  /** The name behind an id; empty when out of range. */
  function NameOf(names: seq<string>, id: nat): string {
    if id < |names| then names[id] else ""
  }

  /** Interning keeps the table well-formed, keeps every id it had, and the id it answers
      names the string. */
  lemma InternedKeepsIds(names: seq<string>, s: string)
    requires ValidNames(names)
    ensures ValidNames(Interned(names, s)) && names <= Interned(names, s)
    ensures IndexOf(names, s) < |Interned(names, s)| && Interned(names, s)[IndexOf(names, s)] == s
  {
  }

  class InternTable {
    var ids: map<string, nat>
    var names: seq<string>

    ghost predicate Valid()
      reads this
    {
      && ValidNames(names)
      && (forall i :: 0 <= i < |names| ==> names[i] in ids && ids[names[i]] == i)
      && (forall s :: s in ids ==> ids[s] < |names| && names[ids[s]] == s)
    }

    constructor ()
      ensures Valid() && names == [""]
    {
      names := [""];
      ids := map["" := 0];
    }

    method Intern(s: string) returns (id: nat)
      requires Valid()
      modifies this
      ensures Valid()
      ensures names == Interned(old(names), s) && id == IndexOf(old(names), s)
      ensures id < |names| && names[id] == s && old(names) <= names
    {
      if s in ids {
        assert names[ids[s]] == s;
        return ids[s];
      }
      id := |names|;
      ids := ids[s := id];
      names := names + [s];
    }

    /** Resolves without interning. */
    method IdOf(s: string) returns (id: nat, found: bool)
      requires Valid()
      ensures found <==> s in names
      ensures if found then id < |names| && names[id] == s else id == 0
    {
      found := s in ids;
      id := if found then ids[s] else 0;
    }
  }

  /** Interning a list of names in order. */
  function InternedAll(names: seq<string>, more: seq<string>): seq<string>
    decreases more
  {
    if more == [] then names else InternedAll(Interned(names, more[0]), more[1..])
  }

  /** Names streamed in id order rebuild the table with identical ids. */
  lemma {:induction false} StreamedNamesRebuild(names: seq<string>, k: nat)
    requires ValidNames(names) && 0 < k <= |names|
    ensures InternedAll(names[..k], names[k..]) == names
    decreases |names| - k
  {
    if k == |names| {
      assert names[..k] == names;
    } else {
      assert names[k] !in names[..k];
      assert names[..k] + [names[k]] == names[..k + 1];
      assert names[k..][1..] == names[k + 1..];
      StreamedNamesRebuild(names, k + 1);
    }
  }
}
