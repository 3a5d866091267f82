/** Translation between a page title and its talk page title (`getSubjectFromTalk`,
    `getTalkFromSubject`) over loaded namespace maps. Both split the title with
    `explode(":", $page, $limit)`; the source passes a limit of 1, which never
    separates the prefix from the rest, and the evident intent is a limit of 2.
    Every function here takes the limit, so both readings are modelled. */
module Titles {
  import opened Php
  import opened Namespaces

  /** The limit the source passes to `explode`. */
  const AsWrittenLimit: nat := 1
  /** The limit that splits at the first colon. */
  const IntendedLimit: nat := 2

  /** `list($ns, $name) = explode(":", $page, $limit)`: a missing second piece reads as null. */
  function Split(page: string, limit: nat): (r: (string, Option<string>))
    ensures limit <= 1 ==> r == (page, None)
    ensures r.1.None? ==> r.0 == page
    ensures r.1.Some? ==> ':' !in r.0
    ensures r.1.Some? && limit <= 2 ==> page == r.0 + ":" + r.1.value
    ensures limit >= 2 && ':' in page ==> r.1.Some?
  {
    var parts := Explode(':', page, limit);
    if |parts| >= 2 then
      assert limit <= 2 ==> parts[1..] == [parts[1]];
      (parts[0], Some(parts[1]))
    else (parts[0], None)
  }

  /** PHP's `null . ":"` is `":"`. */
  function NullToEmpty(s: Option<string>): string
  {
    if s.Some? then s.value else ""
  }

  /** `getSubjectFromTalk($page)`: a title in a talk namespace gets the name of
      the subject namespace as its prefix; any other title is returned as it is.
      An unknown prefix throws "Unknown namespace". */
  function SubjectFromTalk(limit: nat, page: string, byName: map<string, int>, byId: map<int, string>)
    : (r: Outcome<string>)
    ensures !r.Crashed?
    ensures Empty(Split(page, limit).1) ==> r == Returned(page)
    ensures r.Threw? ==> r == Threw("Unknown namespace " + Split(page, limit).0)
    ensures var (ns, name) := Split(page, limit);
      r.Threw? <==> !Empty(name) && ns !in byName
    ensures var (ns, name) := Split(page, limit);
      !Empty(name) && ns in byName && !IsTalkId(byName[ns]) ==> r == Returned(page)
    ensures var (ns, name) := Split(page, limit);
      !Empty(name) && ns in byName && IsTalkId(byName[ns]) ==>
        r == Returned(NullToEmpty(Lookup(byId, byName[ns] - 1)) + ":" + name.value)
    ensures r.Returned? && r.value != page ==>
      var (ns, name) := Split(page, limit);
      name.Some? && ns in byName && IsTalkId(byName[ns]) &&
      r.value == NullToEmpty(Lookup(byId, byName[ns] - 1)) + ":" + name.value
  {
    var (ns, name) := Split(page, limit);
    if Empty(name) then Returned(page)
    else
      var talk := IsTalkNamespace(byName, ns);
      if talk.Threw? then Threw(talk.message)
      else if !talk.value then Returned(page)
      else Returned(NullToEmpty(SubjectNs(byName, byId, ns)) + ":" + name.value)
  }

  /** `getTalkFromSubject($page)`: null for a title without a prefix and for a
      title already in a talk namespace; otherwise the talk namespace's name (or
      nothing, when it has none) followed by ":" and the rest of the title.
      An unknown prefix throws "Unknown namespace". */
  function TalkFromSubject(limit: nat, page: string, byName: map<string, int>, byId: map<int, string>)
    : (r: Outcome<Option<string>>)
    ensures !r.Crashed?
    ensures Empty(Split(page, limit).1) ==> r == Returned(None)
    ensures r.Threw? ==> r == Threw("Unknown namespace " + Split(page, limit).0)
    ensures var (ns, name) := Split(page, limit);
      r.Threw? <==> !Empty(name) && ns !in byName
    ensures var (ns, name) := Split(page, limit);
      !Empty(name) && ns in byName && IsTalkId(byName[ns]) ==> r == Returned(None)
    ensures var (ns, name) := Split(page, limit);
      !Empty(name) && ns in byName && !IsTalkId(byName[ns]) ==>
        r == Returned(Some(NullToEmpty(TalkNs(byName, byId, ns)) + ":" + name.value))
    ensures r.Returned? && r.value.Some? ==> ':' in r.value.value && !Empty(r.value)
    ensures r.Returned? && r.value.Some? ==>
      var (ns, name) := Split(page, limit);
      name.Some? && ns in byName && !IsTalkId(byName[ns]) &&
      r.value.value == NullToEmpty(TalkNs(byName, byId, ns)) + ":" + name.value
  {
    var (ns, name) := Split(page, limit);
    if Empty(name) then Returned(None)
    else
      var talk := IsTalkNamespace(byName, ns);
      if talk.Threw? then Threw(talk.message)
      else if talk.value then Returned(None)
      else
        var t := NullToEmpty(TalkNs(byName, byId, ns)) + ":" + name.value;
        assert t[|t| - |name.value| - 1] == ':';
        Returned(Some(t))
  }

  /** As written (limit 1) neither function ever looks at the namespace maps:
      every title is its own subject page and no title has a talk page. */
  lemma AsWrittenIsInert(page: string, byName: map<string, int>, byId: map<int, string>)
    ensures SubjectFromTalk(AsWrittenLimit, page, byName, byId) == Returned(page)
    ensures TalkFromSubject(AsWrittenLimit, page, byName, byId) == Returned(None)
  {
  }

  /** A wiki with the Help namespace (12) and its talk namespace (13): as written
      "Help:Foo" has no talk page and "Help talk:Foo" is not mapped back, while
      the intended split finds "Help talk:Foo" and maps it back to "Help:Foo". */
  lemma HelpPageCounterexample(help: string, helpTalk: string, foo: string)
    requires help == "Help" && helpTalk == "Help talk" && foo == "Foo"
    ensures var byName := map[help := 12, helpTalk := 13];
      var byId := map[12 := help, 13 := helpTalk];
      && TalkFromSubject(AsWrittenLimit, help + ":" + foo, byName, byId) == Returned(None)
      && SubjectFromTalk(AsWrittenLimit, helpTalk + ":" + foo, byName, byId) == Returned(helpTalk + ":" + foo)
      && TalkFromSubject(IntendedLimit, help + ":" + foo, byName, byId) == Returned(Some(helpTalk + ":" + foo))
      && SubjectFromTalk(IntendedLimit, helpTalk + ":" + foo, byName, byId) == Returned(help + ":" + foo)
  {
    var byName := map[help := 12, helpTalk := 13];
    var byId := map[12 := help, 13 := helpTalk];
    AsWrittenIsInert(help + ":" + foo, byName, byId);
    AsWrittenIsInert(helpTalk + ":" + foo, byName, byId);
    assert help != helpTalk;
    assert Consistent(byName, byId);
    assert ':' !in help && ':' !in helpTalk && !Empty(Some(foo));
    TalkRoundTrip(byName, byId, help, foo);
    TalkThenSubject(byName, byId, help, foo);
  }

  /** With the intended split, a title in a subject namespace that has a talk
      namespace goes to the talk namespace and back to the canonical name of its
      own namespace, the part after the first colon unchanged. */
  lemma {:induction false} TalkThenSubject(byName: map<string, int>, byId: map<int, string>, ns: string, name: string)
    requires Consistent(byName, byId)
    requires ':' !in ns && !Empty(Some(name))
    requires ns in byName && byName[ns] > 0 && !IsTalkId(byName[ns])
    requires byName[ns] + 1 in byId && ':' !in byId[byName[ns] + 1]
    ensures var talk := byId[byName[ns] + 1] + ":" + name;
      TalkFromSubject(IntendedLimit, ns + ":" + name, byName, byId) == Returned(Some(talk)) &&
      SubjectFromTalk(IntendedLimit, talk, byName, byId) == Returned(NullToEmpty(Lookup(byId, byName[ns])) + ":" + name)
  {
    var id := byName[ns];
    var talkNs := byId[id + 1];
    ExplodeTwoJoined(':', ns, name);
    assert ns + ":" + name == ns + [':'] + name;
    assert Split(ns + ":" + name, IntendedLimit) == (ns, Some(name));
    ExplodeTwoJoined(':', talkNs, name);
    assert talkNs + ":" + name == talkNs + [':'] + name;
    assert Split(talkNs + ":" + name, IntendedLimit) == (talkNs, Some(name));
    assert talkNs in byName && byName[talkNs] == id + 1;
    assert IsTalkId(id + 1);
  }

  /** The round trip: for a title whose prefix is the canonical name of a subject
      namespace with a talk namespace, `getSubjectFromTalk(getTalkFromSubject(t)) == t`
      under the intended split. */
  lemma TalkRoundTrip(byName: map<string, int>, byId: map<int, string>, ns: string, name: string)
    requires Consistent(byName, byId)
    requires ':' !in ns && !Empty(Some(name))
    requires ns in byName && byName[ns] > 0 && !IsTalkId(byName[ns])
    requires byName[ns] in byId && byId[byName[ns]] == ns
    requires byName[ns] + 1 in byId && ':' !in byId[byName[ns] + 1]
    ensures var talk := TalkFromSubject(IntendedLimit, ns + ":" + name, byName, byId);
      talk.Returned? && talk.value.Some? &&
      SubjectFromTalk(IntendedLimit, talk.value.value, byName, byId) == Returned(ns + ":" + name)
  {
    TalkThenSubject(byName, byId, ns, name);
  }

  /** Under the intended split, a subject namespace without a talk namespace
      (id 0 among them, by `empty()`) yields ":" and the rest of the title rather
      than null, because the source concatenates the null name. */
  lemma NoTalkNamespaceGivesBareColon(byName: map<string, int>, byId: map<int, string>, ns: string, name: string)
    requires ':' !in ns && !Empty(Some(name))
    requires ns in byName && !IsTalkId(byName[ns])
    requires byName[ns] <= 0 || byName[ns] + 1 !in byId
    ensures TalkFromSubject(IntendedLimit, ns + ":" + name, byName, byId) == Returned(Some(":" + name))
  {
    ExplodeTwoJoined(':', ns, name);
    assert ns + ":" + name == ns + [':'] + name;
    assert Split(ns + ":" + name, IntendedLimit) == (ns, Some(name));
    assert IsTalkNamespace(byName, ns) == Returned(false);
    assert TalkNs(byName, byId, ns) == None;
    assert NullToEmpty(TalkNs(byName, byId, ns)) + ":" + name == ":" + name;
  }

  /** Under the intended split, a prefix that is not a namespace name throws,
      as does any title with a colon on a wiki whose namespaces are not loaded. */
  lemma UnknownPrefixThrows(byName: map<string, int>, byId: map<int, string>, ns: string, name: string)
    requires ':' !in ns && !Empty(Some(name)) && ns !in byName
    ensures TalkFromSubject(IntendedLimit, ns + ":" + name, byName, byId) == Threw("Unknown namespace " + ns)
    ensures SubjectFromTalk(IntendedLimit, ns + ":" + name, byName, byId) == Threw("Unknown namespace " + ns)
  {
    ExplodeTwoJoined(':', ns, name);
    assert ns + ":" + name == ns + [':'] + name;
    assert Split(ns + ":" + name, IntendedLimit) == (ns, Some(name));
  }

  /** A talk page has no talk page of its own. */
  lemma TalkOfTalkIsNull(byName: map<string, int>, byId: map<int, string>, ns: string, name: string)
    requires ':' !in ns && !Empty(Some(name))
    requires ns in byName && IsTalkId(byName[ns])
    ensures TalkFromSubject(IntendedLimit, ns + ":" + name, byName, byId) == Returned(None)
  {
    ExplodeTwoJoined(':', ns, name);
    assert ns + ":" + name == ns + [':'] + name;
    assert Split(ns + ":" + name, IntendedLimit) == (ns, Some(name));
  }
}
