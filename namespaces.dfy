/** Namespace metadata of one wiki, as `WikiApi` keeps it: `nsByName` maps both
    the local and the canonical name of every namespace to its id, `nsById` maps
    an id to its canonical name. Both are filled from the siteinfo reply in one
    pass over its entries; the queries below read them. */
module Namespaces {
  import opened Php

  /** One entry of the siteinfo reply's `query.namespaces` object. */
  datatype NsEntry = NsEntry(id: int, name: string, canonical: string)

  /** `nsByName` after the load loop has processed `entries` in order: for each
      entry, first its local name, then its canonical name is set to its id,
      a later assignment overwriting an earlier one. */
  function NameIndex(entries: seq<NsEntry>): map<string, int>
  {
    if entries == [] then map[]
    else
      var e := entries[|entries| - 1];
      NameIndex(entries[..|entries| - 1])[e.name := e.id][e.canonical := e.id]
  }

  /** `nsById` after the load loop has processed `entries` in order. */
  function IdIndex(entries: seq<NsEntry>): map<int, string>
  {
    if entries == [] then map[]
    else
      var e := entries[|entries| - 1];
      IdIndex(entries[..|entries| - 1])[e.id := e.canonical]
  }

  ghost function AllNames(entries: seq<NsEntry>): set<string>
  {
    (set e | e in entries :: e.name) + (set e | e in entries :: e.canonical)
  }

  /** Every local or canonical name in the reply, and nothing else, is a key of `nsByName`;
      every id in the reply, and nothing else, is a key of `nsById`. */
  lemma {:induction false} IndexKeys(entries: seq<NsEntry>)
    ensures NameIndex(entries).Keys == AllNames(entries)
    ensures IdIndex(entries).Keys == set e | e in entries :: e.id
  {
    if entries != [] {
      var init := entries[..|entries| - 1];
      var e := entries[|entries| - 1];
      IndexKeys(init);
      assert entries == init + [e];
    }
  }

  /** No name (local or canonical) is shared by two namespaces with different ids. */
  ghost predicate Unambiguous(entries: seq<NsEntry>)
  {
    forall i, j :: 0 <= i < |entries| && 0 <= j < |entries| && entries[i].id != entries[j].id ==>
      entries[i].name != entries[j].name && entries[i].name != entries[j].canonical &&
      entries[i].canonical != entries[j].canonical
  }

  /** The reply lists each id once (it is a JSON object keyed by id). */
  ghost predicate DistinctIds(entries: seq<NsEntry>)
  {
    forall i, j :: 0 <= i < j < |entries| ==> entries[i].id != entries[j].id
  }

  /** When names are not shared between namespaces, both names of every
      namespace map to its id after the load. */
  lemma {:induction false} NameIndexSound(entries: seq<NsEntry>)
    requires Unambiguous(entries)
    ensures forall e :: e in entries ==>
      e.name in NameIndex(entries) && NameIndex(entries)[e.name] == e.id &&
      e.canonical in NameIndex(entries) && NameIndex(entries)[e.canonical] == e.id
  {
    if entries != [] {
      var init := entries[..|entries| - 1];
      var last := entries[|entries| - 1];
      assert Unambiguous(init);
      NameIndexSound(init);
      forall e | e in entries
        ensures e.name in NameIndex(entries) && NameIndex(entries)[e.name] == e.id
        ensures e.canonical in NameIndex(entries) && NameIndex(entries)[e.canonical] == e.id
      {
        if e != last {
          assert e in init;
          var i :| 0 <= i < |init| && init[i] == e;
          assert entries[i] == e;
          assert entries[|entries| - 1] == last;
        }
      }
    }
  }

  /** When each id occurs once, `nsById` holds the canonical name of each namespace. */
  lemma {:induction false} IdIndexSound(entries: seq<NsEntry>)
    requires DistinctIds(entries)
    ensures forall e :: e in entries ==> e.id in IdIndex(entries) && IdIndex(entries)[e.id] == e.canonical
  {
    if entries != [] {
      var init := entries[..|entries| - 1];
      var last := entries[|entries| - 1];
      assert DistinctIds(init);
      IdIndexSound(init);
      forall e | e in entries ensures e.id in IdIndex(entries) && IdIndex(entries)[e.id] == e.canonical {
        if e != last {
          var i :| 0 <= i < |init| && init[i] == e;
          assert entries[i] == e;
        }
      }
    }
  }

  /** The two maps agree: every canonical name in `nsById` looks up its own id in `nsByName`. */
  ghost predicate Consistent(byName: map<string, int>, byId: map<int, string>)
  {
    forall id :: id in byId ==> byId[id] in byName && byName[byId[id]] == id
  }

  /** A reply without shared names or repeated ids loads into consistent maps. */
  lemma LoadedIsConsistent(entries: seq<NsEntry>)
    requires Unambiguous(entries) && DistinctIds(entries)
    ensures Consistent(NameIndex(entries), IdIndex(entries))
  {
    IndexKeys(entries);
    NameIndexSound(entries);
    IdIndexSound(entries);
    forall id | id in IdIndex(entries)
      ensures IdIndex(entries)[id] in NameIndex(entries) && NameIndex(entries)[IdIndex(entries)[id]] == id
    {
      var e :| e in entries && e.id == id;
    }
  }

  /** Talk namespaces are the positive odd ids (`$id > 0 && ($id % 2) != 0`). */
  predicate IsTalkId(id: int)
  {
    id > 0 && id % 2 != 0
  }

  /** `isTalkNamespace($name)` once the namespaces are loaded: throws for a name
      that is not a key of `nsByName`. */
  function IsTalkNamespace(byName: map<string, int>, name: string): (r: Outcome<bool>)
    ensures r.Threw? <==> name !in byName
    ensures r.Threw? ==> r.message == "Unknown namespace " + name
    ensures r.Returned? ==> (r.value <==> exists k: nat :: byName[name] == 2 * k + 1)
    ensures !r.Crashed?
  {
    if name !in byName then Threw("Unknown namespace " + name)
    else
      var id := byName[name];
      if IsTalkId(id) then
        assert id == 2 * ((id - 1) / 2) + 1;
        Returned(true)
      else Returned(false)
  }

  /** `getSubjectFromTalkNS($name)`: the name stored for id `nsByName[$name] - 1`.
      An unknown name reads as null, and `null - 1` is -1. */
  function SubjectNs(byName: map<string, int>, byId: map<int, string>, name: string): (r: Option<string>)
    ensures name in byName ==> r == Lookup(byId, byName[name] - 1)
    ensures name !in byName ==> r == Lookup(byId, -1)
  {
    var id := if name in byName then byName[name] else 0;
    Lookup(byId, id - 1)
  }

  /** `getTalkFromSubjectNS($name)`: null for an unknown name, for id 0 (`empty(0)`
      holds in PHP) and for a negative id; otherwise the name stored for id + 1, if any. */
  function TalkNs(byName: map<string, int>, byId: map<int, string>, name: string): (r: Option<string>)
    ensures r.Some? <==> name in byName && byName[name] > 0 && byName[name] + 1 in byId
    ensures r.Some? ==> r.value == byId[byName[name] + 1]
  {
    if name !in byName || byName[name] == 0 || byName[name] < 0 then None
    else Lookup(byId, byName[name] + 1)
  }

  /** The main namespace (id 0) has no talk namespace here, whatever the reply says. */
  lemma MainHasNoTalk(byName: map<string, int>, byId: map<int, string>, name: string)
    requires name in byName && byName[name] == 0
    ensures TalkNs(byName, byId, name) == None
  {
  }

  /** On consistent maps, going from a subject namespace to its talk namespace and
      back yields the canonical name of the subject namespace. */
  lemma NsRoundTrip(byName: map<string, int>, byId: map<int, string>, name: string)
    requires Consistent(byName, byId)
    requires name in byName && byName[name] > 0 && byName[name] + 1 in byId
    requires byName[name] in byId
    ensures TalkNs(byName, byId, name).Some?
    ensures var talk := TalkNs(byName, byId, name).value;
      IsTalkNamespace(byName, talk) == Returned(IsTalkId(byName[name] + 1)) &&
      SubjectNs(byName, byId, talk) == Some(byId[byName[name]])
  {
  }
}
