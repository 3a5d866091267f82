/** What each `WikiApi` method does, as a function from the client's state and
    the wiki's answers to its result and the next state. The class in module
    Wiki is proved against these functions; the properties of `writeToPage`,
    `loadNamespaces` and the title translation are proved here about them.
    Every title function takes the `explode` limit, so the as-written client
    (limit 1) and the intended one (limit 2) are both described. */
module Client {
  import opened Php
  import opened Namespaces
  import opened Titles
  import opened Transport

  /** What the wiki answers, fixed for the whole run, and the client's own
      constants: the host name and the bot.ini credentials. */
  datatype Conf = Conf(
    server: string,
    user: string,
    pass: string,
    credentials: set<(string, string)>,
    replies: map<(string, Option<string>), TemplatesReply>,
    siteinfo: Option<seq<NsEntry>>,
    saveErrors: map<string, string>)

  /** Everything a `WikiApi` call can change: the client's fields (`connected`
      stands for `$this->w` being set, `revision` for the page identifier of
      `$this->pageRevision`, `None` while it is null) and the session, page texts
      and request log of the wiki. */
  datatype State = State(
    connected: bool,
    error: Option<string>,
    byName: map<string, int>,
    byId: map<int, string>,
    revision: Option<string>,
    template: Option<string>,
    loggedIn: bool,
    texts: map<string, string>,
    log: seq<Call>)

  /** `nsById` is filled only together with `nsByName`. */
  predicate MapsFilledTogether(s: State)
  {
    s.byName == map[] ==> s.byId == map[]
  }

  const Summary := "Updating from source wiki"
  const CouldNotGetPage := "Could not get page"
  const FailedToLoad := "Failed to load namespaces"
  /** The fatal errors of a method call on null. */
  const NullRevision := "Call to a member function getPageIdentifier() on null"
  const NullClient := "Call to a member function getRequest() on null"

  function LoginFailure(k: Conf): string
  {
    "Bot login failed for " + k.server + ": " + k.user + ", " + k.pass
  }

  predicate CanLogIn(k: Conf, s: State)
  {
    s.loggedIn || (k.user, k.pass) in k.credentials
  }

  function LoginCalls(k: Conf, s: State): seq<Call>
  {
    if s.loggedIn then [] else [Login(k.user, k.pass)]
  }

  /** `initMWApi()`. */
  function InitStep(k: Conf, s: State): (bool, State)
  {
    var s1 := s.(connected := true);
    if s.loggedIn then (true, s1)
    else
      var ok := (k.user, k.pass) in k.credentials;
      var s2 := s1.(loggedIn := ok, log := s.log + [Login(k.user, k.pass)]);
      if ok then (true, s2) else (false, s2.(error := Some(LoginFailure(k))))
  }

  /** `loadPageText($page)`: the text of the latest revision of the page whose
      title is `page` with spaces turned into underscores; `None` for `false`. */
  function LoadTextStep(k: Conf, s: State, page: string): (Option<string>, State)
  {
    var u := Replace(page, ' ', '_');
    var (ok, s1) := InitStep(k, s);
    if !ok then (None, s1)
    else
      var text := Lookup(s1.texts, u);
      var s2 := s1.(log := s1.log + [Fetch(u)]);
      if text.None? then (None, s2.(revision := None, error := Some(CouldNotGetPage)))
      else (text, s2.(revision := Some(u)))
  }

  /** `savePage($content, $summary)`: saves to the page of the last loaded revision. */
  function SaveStep(k: Conf, s: State, content: string, summary: string): (Outcome<bool>, State)
  {
    if s.revision.None? then (Crashed(NullRevision), s)
    else
      var t := s.revision.value;
      var s1 := s.(log := s.log + [Save(t, content, summary)]);
      match Lookup(k.saveErrors, t)
      case Some(m) => (Returned(false), s1.(error := Some(m)))
      case None => (Returned(true), s1.(texts := s.texts[t := content]))
  }

  /** A revision is only ever loaded through a live session: no step ends a
      session, and `loadPageText` reads a page only after logging in. */
  predicate RevisionNeedsSession(s: State)
  {
    s.revision.Some? ==> s.loggedIn
  }

  /** `initMWApi`, `loadPageText` and `savePage` keep that invariant. */
  lemma {:induction false} StepsKeepRevisionSession(k: Conf, s: State, page: string, content: string, summary: string)
    requires RevisionNeedsSession(s)
    ensures RevisionNeedsSession(InitStep(k, s).1)
    ensures RevisionNeedsSession(LoadTextStep(k, s, page).1)
    ensures RevisionNeedsSession(SaveStep(k, s, content, summary).1)
  {
    var (ok, s1) := InitStep(k, s);
    assert s1.loggedIn == (s.loggedIn || ok) && s1.revision == s.revision;
    assert ok ==> s1.loggedIn;
  }

  /** The result test of `hasTemplate`: false when `query.pages` is missing or
      empty, otherwise whether the first page lists any template. */
  function HasTemplateResult(reply: TemplatesReply): (r: bool)
    ensures r ==> reply.pages.Some? && |reply.pages.value| > 0
    ensures reply.pages.Some? && |reply.pages.value| > 0 ==>
      (r <==> reply.pages.value[0].templates.Some? && |reply.pages.value[0].templates.value| > 0)
  {
    match reply.pages
    case None => false
    case Some(pages) =>
      if pages == [] then false
      else !EmptyArray(pages[0].templates)
  }

  /** `empty()` on an array that may be missing. */
  predicate EmptyArray(a: Option<seq<string>>)
  {
    a.None? || a.value == []
  }

  /** Only the first page of the reply counts. */
  lemma OnlyFirstPageCounts(first: PageTemplates, rest: seq<PageTemplates>, other: seq<PageTemplates>)
    ensures HasTemplateResult(TemplatesReply(Some([first] + rest))) ==
            HasTemplateResult(TemplatesReply(Some([first] + other)))
  {
    assert ([first] + rest)[0] == first == ([first] + other)[0];
  }

  /** `hasTemplate($page)`: asks for the page's uses of this client's template. */
  function HasTemplateStep(k: Conf, s: State, page: string): (Outcome<bool>, State)
  {
    if !s.connected then (Crashed(NullClient), s)
    else
      (Returned(HasTemplateResult(ReplyIn(k.replies, page, s.template))),
       s.(log := s.log + [TemplatesQuery(page, s.template)]))
  }

  /** The namespace maps `loadNamespaces` leaves, or the exception it throws:
      maps already filled are kept; a client that cannot log in keeps its
      empty maps; a falsy reply throws; otherwise the reply is loaded. */
  function LoadedMaps(k: Conf, byName: map<string, int>, byId: map<int, string>, canLogIn: bool)
    : (r: Outcome<(map<string, int>, map<int, string>)>)
    ensures |byName| > 0 || !canLogIn ==> r == Returned((byName, byId))
    ensures r.Threw? <==> byName == map[] && canLogIn && k.siteinfo.None?
    ensures r.Threw? ==> r.message == FailedToLoad
    ensures !r.Crashed?
    ensures byName == map[] && canLogIn && k.siteinfo.Some? ==>
      r == Returned((NameIndex(k.siteinfo.value), IdIndex(k.siteinfo.value)))
  {
    if |byName| > 0 || !canLogIn then Returned((byName, byId))
    else match k.siteinfo
      case None => Threw(FailedToLoad)
      case Some(e) => Returned((NameIndex(e), IdIndex(e)))
  }

  /** `loadNamespaces()`, assuming `nsById` is empty while `nsByName` is. */
  function LoadNamespacesStep(k: Conf, s: State): (Outcome<map<string, int>>, State)
  {
    if |s.byName| > 0 then (Returned(s.byName), s)
    else
      var (ok, s1) := InitStep(k, s);
      if !ok then (Returned(s1.byName), s1)
      else
        var s2 := s1.(log := s1.log + [SiteInfoQuery]);
        match k.siteinfo
        case None => (Threw(FailedToLoad), s2)
        case Some(e) => (Returned(NameIndex(e)), s2.(byName := NameIndex(e), byId := IdIndex(e)))
  }

  /** `isTalkNamespace($name)`. */
  function IsTalkStep(k: Conf, s: State, name: string): (Outcome<bool>, State)
  {
    var (m, s1) := LoadNamespacesStep(k, s);
    if !m.Returned? then (Propagate(m), s1) else (IsTalkNamespace(m.value, name), s1)
  }

  /** `getSubjectFromTalkNS($name)`. */
  function SubjectNsStep(k: Conf, s: State, name: string): (Outcome<Option<string>>, State)
  {
    var (m, s1) := LoadNamespacesStep(k, s);
    if !m.Returned? then (Propagate(m), s1) else (Returned(SubjectNs(m.value, s1.byId, name)), s1)
  }

  /** `getTalkFromSubjectNS($name)`. */
  function TalkNsStep(k: Conf, s: State, name: string): (Outcome<Option<string>>, State)
  {
    var (m, s1) := LoadNamespacesStep(k, s);
    if !m.Returned? then (Propagate(m), s1) else (Returned(TalkNs(m.value, s1.byId, name)), s1)
  }

  /** `getSubjectFromTalk($page)` with the given `explode` limit. */
  function SubjectStep(k: Conf, limit: nat, s: State, page: string): (Outcome<string>, State)
  {
    var (ns, name) := Split(page, limit);
    if Empty(name) then (Returned(page), s)
    else
      var (t, s1) := IsTalkStep(k, s, ns);
      if !t.Returned? then (Propagate(t), s1)
      else if !t.value then (Returned(page), s1)
      else
        var (sub, s2) := SubjectNsStep(k, s1, ns);
        if !sub.Returned? then (Propagate(sub), s2)
        else (Returned(NullToEmpty(sub.value) + ":" + name.value), s2)
  }

  /** `getTalkFromSubject($page)` with the given `explode` limit. */
  function TalkStep(k: Conf, limit: nat, s: State, page: string): (Outcome<Option<string>>, State)
  {
    var (ns, name) := Split(page, limit);
    if Empty(name) then (Returned(None), s)
    else
      var (t, s1) := IsTalkStep(k, s, ns);
      if !t.Returned? then (Propagate(t), s1)
      else if t.value then (Returned(None), s1)
      else
        var (talk, s2) := TalkNsStep(k, s1, ns);
        if !talk.Returned? then (Propagate(talk), s2)
        else (Returned(Some(NullToEmpty(talk.value) + ":" + name.value)), s2)
  }

  /** `savePage($content, "Updating from source wiki")` inside `writeToPage`,
      whose own result is ignored. */
  function SaveAndReturn(k: Conf, s: State, content: string): (Outcome<bool>, State)
  {
    var (r, s1) := SaveStep(k, s, content, Summary);
    if r.Crashed? then (r, s1) else (Returned(true), s1)
  }

  /** `writeToPage($pageTo, $content)` with the given `explode` limit. */
  function WriteStep(k: Conf, limit: nat, s: State, pageTo: string, content: string): (Outcome<bool>, State)
  {
    var (ok, s1) := InitStep(k, s);
    if !ok then (Returned(false), s1)
    else
      var (oldText, s2) := LoadTextStep(k, s1, pageTo);
      if oldText == Some(content) then (Returned(true), s2)
      else WriteChanged(k, limit, s2, pageTo, content)
  }

  /** The rest of `writeToPage` once the page's text differs from the new
      content: the page must use the mirror template, or else its talk page. */
  function WriteChanged(k: Conf, limit: nat, s: State, pageTo: string, content: string): (Outcome<bool>, State)
  {
    var (h, s1) := HasTemplateStep(k, s, pageTo);
    if !h.Returned? then (Propagate(h), s1)
    else if h.value then SaveAndReturn(k, s1, content)
    else WriteViaTalk(k, limit, s1, pageTo, content)
  }

  /** The talk page check of `writeToPage`. */
  function WriteViaTalk(k: Conf, limit: nat, s: State, pageTo: string, content: string): (Outcome<bool>, State)
  {
    var (talk, s1) := TalkStep(k, limit, s, pageTo);
    if !talk.Returned? then (Propagate(talk), s1)
    else if Empty(talk.value) then (Returned(true), s1)
    else
      var (h, s2) := HasTemplateStep(k, s1, talk.value.value);
      if !h.Returned? then (Propagate(h), s2)
      else if !h.value then (Returned(true), s2)
      else SaveAndReturn(k, s2, content)
  }

  // ---------------------------------------------------------------------------
  // Loading the namespaces

  /** Once the maps hold something, `loadNamespaces` returns them and makes no request. */
  lemma LoadIsCached(k: Conf, s: State)
    requires |s.byName| > 0
    ensures LoadNamespacesStep(k, s) == (Returned(s.byName), s)
  {
  }

  /** Loading twice is loading once: the second load returns what the first left. */
  lemma {:induction false} LoadIsIdempotent(k: Conf, s: State)
    requires MapsFilledTogether(s)
    ensures var (m, s1) := LoadNamespacesStep(k, s);
      m.Returned? && |s1.byName| > 0 ==> LoadNamespacesStep(k, s1) == (m, s1)
    ensures var (m, s1) := LoadNamespacesStep(k, s);
      m.Returned? ==> m.value == s1.byName && Returned((s1.byName, s1.byId)) == LoadedMaps(k, s.byName, s.byId, CanLogIn(k, s))
    ensures var (m, s1) := LoadNamespacesStep(k, s);
      !m.Returned? ==> m == Threw(FailedToLoad) && LoadedMaps(k, s.byName, s.byId, CanLogIn(k, s)) == Threw(FailedToLoad)
  {
    var (m, s1) := LoadNamespacesStep(k, s);
    if |s.byName| == 0 && CanLogIn(k, s) && k.siteinfo.Some? {
      assert s1.byName == NameIndex(k.siteinfo.value);
    }
  }

  /** A falsy siteinfo reply throws "Failed to load namespaces" and fills nothing. */
  lemma LoadFailureThrows(k: Conf, s: State)
    requires s.byName == map[] && CanLogIn(k, s) && k.siteinfo.None?
    ensures var (m, s1) := LoadNamespacesStep(k, s);
      m == Threw(FailedToLoad) && s1.byName == map[] && s1.byId == s.byId
  {
  }

  /** A reply without shared names or repeated ids fills both maps so that each
      name and canonical name looks up its namespace's id, and each id its
      canonical name. */
  lemma LoadFillsMaps(k: Conf, s: State)
    requires s.byName == map[] && CanLogIn(k, s) && k.siteinfo.Some?
    requires Unambiguous(k.siteinfo.value) && DistinctIds(k.siteinfo.value)
    ensures var (m, s1) := LoadNamespacesStep(k, s);
      m == Returned(s1.byName) && Consistent(s1.byName, s1.byId) &&
      forall e :: e in k.siteinfo.value ==>
        e.name in s1.byName && e.canonical in s1.byName && e.id in s1.byId &&
        s1.byName[e.name] == e.id && s1.byName[e.canonical] == e.id && s1.byId[e.id] == e.canonical
  {
    var e := k.siteinfo.value;
    NameIndexSound(e);
    IdIndexSound(e);
    LoadedIsConsistent(e);
  }

  // ---------------------------------------------------------------------------
  // Title translation inside the client

  /** The talk page title `getTalkFromSubject` yields once the namespaces are
      loaded as `loadNamespaces` would load them. */
  function TalkFound(k: Conf, limit: nat, byName: map<string, int>, byId: map<int, string>, canLogIn: bool, page: string)
    : (r: Outcome<Option<string>>)
    ensures !r.Crashed?
    ensures r.Threw? ==> r.message == FailedToLoad || r.message == "Unknown namespace " + Split(page, limit).0
  {
    if Empty(Split(page, limit).1) then Returned(None)
    else match LoadedMaps(k, byName, byId, canLogIn)
      case Returned((bn, bi)) => TalkFromSubject(limit, page, bn, bi)
      case Threw(m) => Threw(m)
      case Crashed(m) => Crashed(m)
  }

  /** The subject page title `getSubjectFromTalk` yields, likewise. */
  function SubjectFound(k: Conf, limit: nat, byName: map<string, int>, byId: map<int, string>, canLogIn: bool, page: string)
    : Outcome<string>
  {
    if Empty(Split(page, limit).1) then Returned(page)
    else match LoadedMaps(k, byName, byId, canLogIn)
      case Returned((bn, bi)) => SubjectFromTalk(limit, page, bn, bi)
      case Threw(m) => Threw(m)
      case Crashed(m) => Crashed(m)
  }

  /** The second load inside a translation is served from the cache. */
  lemma SecondLoadCached(k: Conf, s: State, ns: string)
    requires MapsFilledTogether(s)
    ensures var (t, s1) := IsTalkStep(k, s, ns);
      t.Returned? ==> (LoadNamespacesStep(k, s1) == (Returned(s1.byName), s1) &&
        Returned((s1.byName, s1.byId)) == LoadedMaps(k, s.byName, s.byId, CanLogIn(k, s)))
  {
    LoadIsIdempotent(k, s);
    var (t, s1) := IsTalkStep(k, s, ns);
    if t.Returned? {
      assert ns in s1.byName;
    }
  }

  /** `getTalkFromSubject` in the client is the title function of module Titles
      applied to the maps as loaded. */
  lemma TalkStepAgrees(k: Conf, limit: nat, s: State, page: string)
    requires MapsFilledTogether(s)
    ensures TalkStep(k, limit, s, page).0 == TalkFound(k, limit, s.byName, s.byId, CanLogIn(k, s), page)
  {
    var (ns, name) := Split(page, limit);
    if !Empty(name) {
      SecondLoadCached(k, s, ns);
      LoadIsIdempotent(k, s);
      var (t, s1) := IsTalkStep(k, s, ns);
      if t.Returned? && !t.value {
        assert TalkNsStep(k, s1, ns).0 == Returned(TalkNs(s1.byName, s1.byId, ns));
      }
    }
  }

  /** Translating a title to its talk page changes neither the texts nor the
      last loaded revision, and makes no save and no templates query. */
  lemma TalkStepQuiet(k: Conf, limit: nat, s: State, page: string)
    requires MapsFilledTogether(s)
    ensures var s1 := TalkStep(k, limit, s, page).1;
      s1.texts == s.texts && s1.template == s.template && s1.revision == s.revision &&
      Only(s1.log, IsSave) == Only(s.log, IsSave) &&
      Only(s1.log, IsTemplatesQuery) == Only(s.log, IsTemplatesQuery) &&
      MapsFilledTogether(s1) && (s.loggedIn ==> s1.loggedIn)
  {
    var (ns, name) := Split(page, limit);
    if !Empty(name) {
      var (t, s1) := IsTalkStep(k, s, ns);
      assert s1 == LoadNamespacesStep(k, s).1;
      LoadFacts(k, s);
      if t.Returned? && !t.value {
        var s2 := TalkNsStep(k, s1, ns).1;
        assert s2 == LoadNamespacesStep(k, s1).1;
        LoadFacts(k, s1);
        assert TalkStep(k, limit, s, page).1 == s2;
      } else {
        assert TalkStep(k, limit, s, page).1 == s1;
      }
    }
  }

  /** Loading the namespaces keeps the texts, the template, the last revision
      and a live session, fills the two maps together, and makes neither a save
      nor a templates query. */
  lemma LoadFacts(k: Conf, s: State)
    ensures var s1 := LoadNamespacesStep(k, s).1;
      s1.texts == s.texts && s1.template == s.template && s1.revision == s.revision &&
      Only(s1.log, IsSave) == Only(s.log, IsSave) &&
      Only(s1.log, IsTemplatesQuery) == Only(s.log, IsTemplatesQuery) &&
      (MapsFilledTogether(s) ==> MapsFilledTogether(s1)) && (s.loggedIn ==> s1.loggedIn)
  {
    LoadLogQuiet(k, s);
    var s1 := LoadNamespacesStep(k, s).1;
    if |s.byName| == 0 && CanLogIn(k, s) && k.siteinfo.Some? {
      var e := k.siteinfo.value;
      if e != [] {
        assert e[|e| - 1].canonical in NameIndex(e);
      }
    }
  }

  /** Likewise for `getSubjectFromTalk`. */
  lemma SubjectStepAgrees(k: Conf, limit: nat, s: State, page: string)
    requires MapsFilledTogether(s)
    ensures SubjectStep(k, limit, s, page).0 == SubjectFound(k, limit, s.byName, s.byId, CanLogIn(k, s), page)
  {
    var (ns, name) := Split(page, limit);
    if !Empty(name) {
      SecondLoadCached(k, s, ns);
      LoadIsIdempotent(k, s);
      var (t, s1) := IsTalkStep(k, s, ns);
      if t.Returned? && t.value {
        assert SubjectNsStep(k, s1, ns).0 == Returned(SubjectNs(s1.byName, s1.byId, ns));
      }
    }
  }

  /** Translating a title to its subject page keeps the texts, the template and
      the last loaded revision, and makes no save and no templates query. */
  lemma SubjectStepQuiet(k: Conf, limit: nat, s: State, page: string)
    requires MapsFilledTogether(s)
    ensures var s1 := SubjectStep(k, limit, s, page).1;
      s1.texts == s.texts && s1.template == s.template && s1.revision == s.revision &&
      Only(s1.log, IsSave) == Only(s.log, IsSave) &&
      Only(s1.log, IsTemplatesQuery) == Only(s.log, IsTemplatesQuery) &&
      MapsFilledTogether(s1) && (s.loggedIn ==> s1.loggedIn)
  {
    var (ns, name) := Split(page, limit);
    if !Empty(name) {
      var (t, s1) := IsTalkStep(k, s, ns);
      assert s1 == LoadNamespacesStep(k, s).1;
      LoadFacts(k, s);
      if t.Returned? && t.value {
        var s2 := SubjectNsStep(k, s1, ns).1;
        assert s2 == LoadNamespacesStep(k, s1).1;
        LoadFacts(k, s1);
        assert SubjectStep(k, limit, s, page).1 == s2;
      } else {
        assert SubjectStep(k, limit, s, page).1 == s1;
      }
    }
  }

  /** As written (limit 1) the client never loads the namespaces to translate a
      title and changes nothing: `getTalkFromSubject` is null and
      `getSubjectFromTalk` the identity. */
  lemma AsWrittenTranslationIsInert(k: Conf, s: State, page: string)
    ensures TalkStep(k, AsWrittenLimit, s, page) == (Returned(None), s)
    ensures SubjectStep(k, AsWrittenLimit, s, page) == (Returned(page), s)
  {
  }

  // ---------------------------------------------------------------------------
  // The request log

  predicate IsSave(c: Call) { c.Save? }
  predicate IsTemplatesQuery(c: Call) { c.TemplatesQuery? }

  /** The requests of `log` that `keep` selects, in order. */
  function Only(log: seq<Call>, keep: Call -> bool): (r: seq<Call>)
    ensures |r| <= |log|
    ensures forall c :: c in r <==> c in log && keep(c)
  {
    if log == [] then []
    else (if keep(log[0]) then [log[0]] else []) + Only(log[1..], keep)
  }

  lemma {:induction false} OnlyAppend(a: seq<Call>, b: seq<Call>, keep: Call -> bool)
    ensures Only(a + b, keep) == Only(a, keep) + Only(b, keep)
  {
    if a != [] {
      var head := if keep(a[0]) then [a[0]] else [];
      assert (a + b)[0] == a[0];
      assert (a + b)[1..] == a[1..] + b;
      OnlyAppend(a[1..], b, keep);
      assert Only(a + b, keep) == head + Only(a[1..] + b, keep);
      assert Only(a, keep) == head + Only(a[1..], keep);
    } else {
      assert a + b == b;
    }
  }

  /** Loading the namespaces makes neither a save nor a templates query. */
  lemma LoadLogQuiet(k: Conf, s: State)
    ensures var s1 := LoadNamespacesStep(k, s).1;
      Only(s1.log, IsSave) == Only(s.log, IsSave) &&
      Only(s1.log, IsTemplatesQuery) == Only(s.log, IsTemplatesQuery)
  {
    var s1 := LoadNamespacesStep(k, s).1;
    if |s.byName| == 0 {
      var (ok, s2) := InitStep(k, s);
      var d := LoginCalls(k, s) + (if ok then [SiteInfoQuery] else []);
      assert s1.log == s.log + d;
      assert forall c :: c in d ==> c.Login? || c.SiteInfoQuery?;
      OnlyIgnores(s.log, d, IsSave);
      OnlyIgnores(s.log, d, IsTemplatesQuery);
    }
  }

  /** Requests `keep` does not select leave the selection as it was. */
  lemma OnlyIgnores(log: seq<Call>, extra: seq<Call>, keep: Call -> bool)
    requires forall c :: c in extra ==> !keep(c)
    ensures Only(log + extra, keep) == Only(log, keep)
  {
    OnlyAppend(log, extra, keep);
    OnlyNone(extra, keep);
    assert Only(log, keep) + [] == Only(log, keep);
  }

  lemma {:induction false} OnlyNone(extra: seq<Call>, keep: Call -> bool)
    requires forall c :: c in extra ==> !keep(c)
    ensures Only(extra, keep) == []
  {
    if extra != [] {
      assert extra[0] in extra;
      assert forall c :: c in extra[1..] ==> c in extra;
      OnlyNone(extra[1..], keep);
    }
  }

  /** A selected request is added at the end of the selection. */
  lemma OnlyAdds(log: seq<Call>, c: Call, keep: Call -> bool)
    requires keep(c)
    ensures Only(log + [c], keep) == Only(log, keep) + [c]
  {
    OnlyAppend(log, [c], keep);
    assert Only([c], keep) == [c] + Only([], keep);
  }

  // ---------------------------------------------------------------------------
  // Writing a page

  /** How `writeToPage` ends, decided from what it learns in the order it asks:
      whether the session can log in, the page's current text, whether the page
      uses the mirror template, its talk page and whether that uses the template. */
  datatype Decision = LoginFailed | Unchanged | Skip | Write | Abort

  function Decide(canLogIn: bool, oldText: Option<string>, content: string, onPage: bool,
                  talk: Outcome<Option<string>>, onTalk: bool): (d: Decision)
    ensures d == LoginFailed <==> !canLogIn
    ensures d == Unchanged <==> canLogIn && oldText == Some(content)
    ensures d == Write <==>
      (canLogIn && oldText != Some(content) && (onPage || (talk.Returned? && !Empty(talk.value) && onTalk)))
    ensures d == Abort <==> canLogIn && oldText != Some(content) && !onPage && !talk.Returned?
  {
    if !canLogIn then LoginFailed
    else if oldText == Some(content) then Unchanged
    else if onPage then Write
    else if !talk.Returned? then Abort
    else if Empty(talk.value) || !onTalk then Skip
    else Write
  }

  /** Whether the wiki reports the mirror template on `page`. */
  function OnPage(k: Conf, s: State, page: string): bool
  {
    HasTemplateResult(ReplyIn(k.replies, page, s.template))
  }

  /** The decision for writing `content` to `pageTo` from state `s`. */
  function DecisionFor(k: Conf, limit: nat, s: State, pageTo: string, content: string): Decision
  {
    var talk := TalkFound(k, limit, s.byName, s.byId, true, pageTo);
    Decide(CanLogIn(k, s), Lookup(s.texts, Replace(pageTo, ' ', '_')), content, OnPage(k, s, pageTo),
           talk, talk.Returned? && talk.value.Some? && OnPage(k, s, talk.value.value))
  }

  /** The talk page check carries out its part of the decision. */
  lemma ViaTalkFollows(k: Conf, limit: nat, s: State, pageTo: string, content: string, u: string)
    requires MapsFilledTogether(s)
    requires s.loggedIn && s.connected
    requires s.revision == (if u in s.texts then Some(u) else None)
    ensures var (r, s1) := WriteViaTalk(k, limit, s, pageTo, content);
      var talk := TalkFound(k, limit, s.byName, s.byId, true, pageTo);
      var onTalk := talk.Returned? && talk.value.Some? && OnPage(k, s, talk.value.value);
      && (!talk.Returned? ==> r == Propagate(talk))
      && (talk.Returned? && !(!Empty(talk.value) && onTalk) ==> r == Returned(true))
      && (talk.Returned? && !Empty(talk.value) && onTalk ==> WriteOutcome(k, s, s1, r, content, u))
      && (!(talk.Returned? && !Empty(talk.value) && onTalk) ==> NoSave(s, s1))
      && s1.loggedIn && MapsFilledTogether(s1)
  {
    TalkStepAgrees(k, limit, s, pageTo);
    TalkStepQuiet(k, limit, s, pageTo);
    var (talk, s1) := TalkStep(k, limit, s, pageTo);
    if talk.Returned? && !Empty(talk.value) {
      var (h, s2) := HasTemplateStep(k, s1, talk.value.value);
      OnlyIgnores(s1.log, [TemplatesQuery(talk.value.value, s.template)], IsSave);
      if h.value {
        WriteSaves(k, s2, content, u);
      }
    }
  }

  /** No save was made between `s` and `s1` and no text changed. */
  predicate NoSave(s: State, s1: State)
  {
    Only(s1.log, IsSave) == Only(s.log, IsSave) && s1.texts == s.texts
  }

  /** The end of a write that saves page `u`: a fatal error when the page did not
      load; otherwise one save with the summary, the text replaced unless the
      saver refuses, and true. */
  predicate WriteOutcome(k: Conf, s: State, s1: State, r: Outcome<bool>, content: string, u: string)
  {
    && (u !in s.texts ==> r == Crashed(NullRevision) && NoSave(s, s1))
    && (u in s.texts ==>
          r == Returned(true) &&
          Only(s1.log, IsSave) == Only(s.log, IsSave) + [Save(u, content, Summary)] &&
          s1.texts == if u in k.saveErrors then s.texts else s.texts[u := content])
  }

  /** The part after the content comparison carries out its part of the decision. */
  lemma ChangedFollows(k: Conf, limit: nat, s: State, pageTo: string, content: string, u: string)
    requires MapsFilledTogether(s)
    requires s.loggedIn && s.connected
    requires s.revision == (if u in s.texts then Some(u) else None)
    ensures var (r, s1) := WriteChanged(k, limit, s, pageTo, content);
      var talk := TalkFound(k, limit, s.byName, s.byId, true, pageTo);
      var onTalk := talk.Returned? && talk.value.Some? && OnPage(k, s, talk.value.value);
      var write := OnPage(k, s, pageTo) || (talk.Returned? && !Empty(talk.value) && onTalk);
      && (!OnPage(k, s, pageTo) && !talk.Returned? ==> r == Propagate(talk))
      && (!write && talk.Returned? ==> r == Returned(true))
      && (write ==> WriteOutcome(k, s, s1, r, content, u))
      && (!write ==> NoSave(s, s1))
      && s1.loggedIn && MapsFilledTogether(s1)
  {
    var (h, s1) := HasTemplateStep(k, s, pageTo);
    OnlyIgnores(s.log, [TemplatesQuery(pageTo, s.template)], IsSave);
    if h.value {
      WriteSaves(k, s1, content, u);
    } else {
      ViaTalkFollows(k, limit, s1, pageTo, content, u);
    }
  }

  /** `writeToPage` carries out its decision: false only when the login fails;
      exactly one save, with the summary "Updating from source wiki", when it
      decides to write a page that exists; no save otherwise; no templates
      query when the login fails or the text is already the new content. */
  lemma WriteFollowsDecision(k: Conf, limit: nat, s: State, pageTo: string, content: string)
    requires MapsFilledTogether(s)
    ensures var u := Replace(pageTo, ' ', '_');
      var (r, s1) := WriteStep(k, limit, s, pageTo, content);
      var d := DecisionFor(k, limit, s, pageTo, content);
      && (d == LoginFailed ==> r == Returned(false))
      && (d == Unchanged || d == Skip ==> r == Returned(true))
      && (d == Abort ==> var talk := TalkFound(k, limit, s.byName, s.byId, true, pageTo);
            !talk.Returned? && r == Propagate(talk))
      && (d == Write ==> WriteOutcome(k, s, s1, r, content, u))
      && (d != Write ==> NoSave(s, s1))
      && (d == LoginFailed || d == Unchanged ==> Only(s1.log, IsTemplatesQuery) == Only(s.log, IsTemplatesQuery))
      && (d != LoginFailed ==> s1.loggedIn)
      && MapsFilledTogether(s1)
  {
    var u := Replace(pageTo, ' ', '_');
    var (r, sEnd) := WriteStep(k, limit, s, pageTo, content);
    var (ok, s1) := InitStep(k, s);
    InitFacts(k, s);
    if ok {
      var (oldText, s2) := LoadTextStep(k, s1, pageTo);
      LoadTextFacts(k, s1, pageTo);
      assert s2.log == s.log + (LoginCalls(k, s) + [Fetch(u)]);
      OnlyIgnores(s.log, LoginCalls(k, s) + [Fetch(u)], IsSave);
      OnlyIgnores(s.log, LoginCalls(k, s) + [Fetch(u)], IsTemplatesQuery);
      assert NoSave(s, s2);
      var talk := TalkFound(k, limit, s.byName, s.byId, true, pageTo);
      var onTalk := talk.Returned? && talk.value.Some? && OnPage(k, s, talk.value.value);
      assert DecisionFor(k, limit, s, pageTo, content) == Decide(true, oldText, content, OnPage(k, s, pageTo), talk, onTalk);
      if oldText != Some(content) {
        assert (r, sEnd) == WriteChanged(k, limit, s2, pageTo, content);
        assert talk == TalkFound(k, limit, s2.byName, s2.byId, true, pageTo);
        assert onTalk == (talk.Returned? && talk.value.Some? && OnPage(k, s2, talk.value.value));
        assert OnPage(k, s2, pageTo) == OnPage(k, s, pageTo);
        ChangedFollows(k, limit, s2, pageTo, content, u);
      }
    } else {
      OnlyIgnores(s.log, LoginCalls(k, s), IsSave);
      OnlyIgnores(s.log, LoginCalls(k, s), IsTemplatesQuery);
    }
  }

  lemma InitFacts(k: Conf, s: State)
    ensures var (ok, s1) := InitStep(k, s);
      ok == CanLogIn(k, s) && s1.loggedIn == ok && s1.connected &&
      s1.byName == s.byName && s1.byId == s.byId && s1.template == s.template &&
      s1.texts == s.texts && s1.revision == s.revision && s1.log == s.log + LoginCalls(k, s)
  {
  }

  lemma LoadTextFacts(k: Conf, s: State, page: string)
    requires s.loggedIn
    ensures var u := Replace(page, ' ', '_');
      var (text, s1) := LoadTextStep(k, s, page);
      text == Lookup(s.texts, u) && s1.loggedIn && s1.connected &&
      s1.byName == s.byName && s1.byId == s.byId && s1.template == s.template && s1.texts == s.texts &&
      s1.revision == (if u in s.texts then Some(u) else None) && s1.log == s.log + [Fetch(u)]
  {
  }

  /** The save at the end of `writeToPage`, once the page `u` has been loaded. */
  lemma WriteSaves(k: Conf, s: State, content: string, u: string)
    requires s.revision == (if u in s.texts then Some(u) else None)
    ensures var (r, s1) := SaveAndReturn(k, s, content);
      WriteOutcome(k, s, s1, r, content, u)
  {
    var (r, s1) := SaveAndReturn(k, s, content);
    if u in s.texts {
      var s2 := s.(log := s.log + [Save(u, content, Summary)]);
      assert s1 == if u in k.saveErrors then s2.(error := Some(k.saveErrors[u])) else s2.(texts := s.texts[u := content]);
      OnlyAdds(s.log, Save(u, content, Summary), IsSave);
    } else {
      assert s1 == s;
    }
  }

  /** Once a write has saved the new content, writing it again changes nothing
      and asks nothing but the page text. */
  lemma SecondWriteIsNoOp(k: Conf, limit: nat, s: State, pageTo: string, content: string)
    requires MapsFilledTogether(s)
    requires var s1 := WriteStep(k, limit, s, pageTo, content).1;
      Only(s1.log, IsSave) != Only(s.log, IsSave) && Replace(pageTo, ' ', '_') !in k.saveErrors
    ensures var s1 := WriteStep(k, limit, s, pageTo, content).1;
      var (r2, s2) := WriteStep(k, limit, s1, pageTo, content);
      r2 == Returned(true) && NoSave(s1, s2) &&
      Only(s2.log, IsTemplatesQuery) == Only(s1.log, IsTemplatesQuery)
  {
    var u := Replace(pageTo, ' ', '_');
    var s1 := WriteStep(k, limit, s, pageTo, content).1;
    WriteFollowsDecision(k, limit, s, pageTo, content);
    assert s1.texts == s.texts[u := content];
    WriteFollowsDecision(k, limit, s1, pageTo, content);
    assert DecisionFor(k, limit, s1, pageTo, content) == Unchanged;
  }

  /** As written, the talk page is never consulted: a page is written only when
      it uses the mirror template itself. */
  lemma AsWrittenWritesOnlyTemplatedPages(k: Conf, s: State, pageTo: string, content: string)
    ensures DecisionFor(k, AsWrittenLimit, s, pageTo, content) == Write ==> OnPage(k, s, pageTo)
    ensures WriteViaTalk(k, AsWrittenLimit, s, pageTo, content) == (Returned(true), s)
  {
    assert TalkFound(k, AsWrittenLimit, s.byName, s.byId, true, pageTo) == Returned(None);
    AsWrittenTranslationIsInert(k, s, pageTo);
  }

  /** Replies in which no page carries a `templates` list: what a query that
      names `tltemplates` but asks for no `prop=templates` gets back. */
  predicate ListsNoTemplates(replies: map<(string, Option<string>), TemplatesReply>)
  {
    forall key :: key in replies ==>
      replies[key].pages.None? || forall p :: p in replies[key].pages.value ==> p.templates.None?
  }

  /** Such replies never report the mirror template. */
  lemma NoListedTemplatesOffPage(k: Conf, s: State, page: string)
    requires ListsNoTemplates(k.replies)
    ensures !OnPage(k, s, page)
  {
    var reply := ReplyIn(k.replies, page, s.template);
    if reply.pages.Some? && |reply.pages.value| > 0 {
      assert (page, s.template) in k.replies;
      assert reply.pages.value[0] in reply.pages.value;
    }
  }

  /** With replies that list no templates, `writeToPage` never decides to write
      and never saves, whatever the page, the content and the session. */
  lemma NoListedTemplatesNeverSave(k: Conf, limit: nat, s: State, pageTo: string, content: string)
    requires MapsFilledTogether(s)
    requires ListsNoTemplates(k.replies)
    ensures DecisionFor(k, limit, s, pageTo, content) != Write
    ensures var (r, s1) := WriteStep(k, limit, s, pageTo, content);
      NoSave(s, s1)
  {
    NoListedTemplatesOffPage(k, s, pageTo);
    var talk := TalkFound(k, limit, s.byName, s.byId, true, pageTo);
    if talk.Returned? && talk.value.Some? {
      NoListedTemplatesOffPage(k, s, talk.value.value);
    }
    WriteFollowsDecision(k, limit, s, pageTo, content);
  }
}
