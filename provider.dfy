/** The backend's in-memory version provider: a table from version string
    to release metadata, built once from a list, plus the name of the version
    that was listed last. */
module VersionProvider {
  import opened Wrappers

  /** Release metadata as the backend reports it. */
  datatype Info = Info(version: string, commit: string, buildDate: string)

  /** The zero value returned beside an error or a miss. */
  const ZeroInfo := Info("", "", "")

  /** The message of errNoVersions. */
  const ErrNoVersions := "no versions available"

  datatype LatestReply = LatestReply(info: Info, err: Option<string>)
  datatype GetReply = GetReply(info: Info, ok: bool, err: Option<string>)

  /** The table a list builds, inserting front to back: a later entry with
      the same version replaces an earlier one. */
  function EntriesOf(list: seq<Info>): map<string, Info>
  {
    if |list| == 0 then map[]
    else EntriesOf(list[..|list| - 1])[list[|list| - 1].version := list[|list| - 1]]
  }

  /** The version of the last entry listed, "" for the empty list. */
  function LatestOf(list: seq<Info>): string
  {
    if |list| == 0 then "" else list[|list| - 1].version
  }

  /** What Latest answers on a table and a latest name. */
  function LatestLookup(entries: map<string, Info>, latest: string): LatestReply
  {
    if latest == "" || latest !in entries then LatestReply(ZeroInfo, Some(ErrNoVersions))
    else LatestReply(entries[latest], None)
  }

  /** What Get answers on a table. */
  function GetLookup(entries: map<string, Info>, version: string): GetReply
  {
    if version in entries then GetReply(entries[version], true, None)
    else GetReply(ZeroInfo, false, None)
  }

  /** The table holds exactly the listed versions. */
  lemma {:induction false} EntriesOfKeys(list: seq<Info>)
    ensures EntriesOf(list).Keys == set i | 0 <= i < |list| :: list[i].version
  {
    if |list| > 0 {
      var init := list[..|list| - 1];
      EntriesOfKeys(init);
      assert forall i | 0 <= i < |init| :: init[i] == list[i];
      var s := set i | 0 <= i < |list| :: list[i].version;
      var s' := set i | 0 <= i < |init| :: init[i].version;
      assert s == s' + {list[|list| - 1].version} by {
        forall v | v in s ensures v in s' + {list[|list| - 1].version} {
          var i :| 0 <= i < |list| && list[i].version == v;
          if i < |init| { assert init[i].version == v; }
        }
      }
    }
  }

  /** Each listed version maps to its last occurrence in the list. */
  lemma {:induction false} EntriesOfLastWins(list: seq<Info>, i: nat)
    requires i < |list|
    requires forall j | i < j < |list| :: list[j].version != list[i].version
    ensures list[i].version in EntriesOf(list)
    ensures EntriesOf(list)[list[i].version] == list[i]
  {
    if i < |list| - 1 {
      var init := list[..|list| - 1];
      assert init[i] == list[i];
      EntriesOfLastWins(init, i);
    }
  }

  /** The latest name of a non-empty list is its last entry's version, and
      that entry is what the table holds under it. */
  lemma LatestIsLastListed(list: seq<Info>)
    requires list != []
    ensures LatestOf(list) == list[|list| - 1].version
    ensures LatestOf(list) in EntriesOf(list) && EntriesOf(list)[LatestOf(list)] == list[|list| - 1]
  {
  }

  /** Latest on a table built from a list: the last entry when its version is
      non-empty; errNoVersions for the empty list, and also when the last
      entry's version is "" although the list is not empty. */
  lemma LatestOfBuiltTable(list: seq<Info>)
    ensures var r := LatestLookup(EntriesOf(list), LatestOf(list));
      && (r.err.None? <==> list != [] && list[|list| - 1].version != "")
      && (r.err.None? ==> r.info == list[|list| - 1])
      && (r.err.Some? ==> r.info == ZeroInfo && r.err == Some(ErrNoVersions))
  {
  }

  /** Get on a table built from a list never fails, finds exactly the listed
      versions, and returns the last entry listed under the version. */
  lemma GetOfBuiltTable(list: seq<Info>, version: string)
    ensures var r := GetLookup(EntriesOf(list), version);
      && r.err.None?
      && (r.ok <==> exists i | 0 <= i < |list| :: list[i].version == version)
      && (!r.ok ==> r.info == ZeroInfo)
      && forall i | 0 <= i < |list| && list[i].version == version
           && (forall j | i < j < |list| :: list[j].version != version) :: r.ok && r.info == list[i]
  {
    EntriesOfKeys(list);
    forall i | 0 <= i < |list| && list[i].version == version
      && (forall j | i < j < |list| :: list[j].version != version)
      ensures GetLookup(EntriesOf(list), version).info == list[i]
    {
      EntriesOfLastWins(list, i);
    }
  }

  class InMemoryProvider {
    var latest: string
    var entries: map<string, Info>

    /** NewInMemoryProvider: inserts the entries in list order, each one
      becoming the latest. */
    constructor (list: seq<Info>)
      ensures entries == EntriesOf(list) && latest == LatestOf(list)
    {
      var table: map<string, Info> := map[];
      var last := "";
      var i := 0;
      while i < |list|
        invariant 0 <= i <= |list|
        invariant table == EntriesOf(list[..i]) && last == LatestOf(list[..i])
      {
        assert list[..i + 1][..i] == list[..i];
        table := table[list[i].version := list[i]];
        last := list[i].version;
        i := i + 1;
      }
      assert list[..i] == list;
      entries := table;
      latest := last;
    }

    /** Latest: the entry stored under the latest name, or errNoVersions. */
    method Latest() returns (info: Info, err: Option<string>)
      ensures LatestReply(info, err) == LatestLookup(entries, latest)
      ensures err.None? <==> latest != "" && latest in entries
      ensures err.None? ==> info == entries[latest]
    {
      if latest == "" {
        return ZeroInfo, Some(ErrNoVersions);
      }
      if latest !in entries {
        return ZeroInfo, Some(ErrNoVersions);
      }
      return entries[latest], None;
    }

    /** Get: the entry stored under `version`, with ok telling whether there is one. */
    method Get(version: string) returns (info: Info, ok: bool, err: Option<string>)
      ensures GetReply(info, ok, err) == GetLookup(entries, version)
      ensures err.None?
      ensures ok <==> version in entries
      ensures ok ==> info == entries[version]
    {
      if version !in entries {
        return ZeroInfo, false, None;
      }
      return entries[version], true, None;
    }
  }

  /** The service test's provider: one entry, found by Latest and by Get on its
      version, and "9.9.9" missing without an error. */
  lemma SingleEntryProvider()
    ensures var e := Info("0.1.0", "abc123", "2025-01-01T00:00:00Z");
      && LatestLookup(EntriesOf([e]), LatestOf([e])) == LatestReply(e, None)
      && GetLookup(EntriesOf([e]), "0.1.0") == GetReply(e, true, None)
      && GetLookup(EntriesOf([e]), "9.9.9") == GetReply(ZeroInfo, false, None)
  {
    var e := Info("0.1.0", "abc123", "2025-01-01T00:00:00Z");
    assert EntriesOf([e]) == map["0.1.0" := e] by {
      assert [e][..0] == [];
    }
  }
}
