/** `class WikiApi`: one client per wiki, holding the namespace maps, the
    mirror template name, the last error and the last loaded revision. Each
    method is proved to do what the matching function of module Client says.
    The title translation uses the intended two-piece split of a title; the
    one-piece split the source passes is described in modules Titles and Client. */
module Wiki {
  import opened Php
  import opened Namespaces
  import opened Titles
  import opened Hosts
  import opened Transport
  import opened Client

  class WikiApi {
    const wiki: string
    /** `$this->wiki_server`. */
    const server: string
    /** The bot.ini credentials. */
    const user: string
    const pass: string
    /** The MediawikiApi session for `https://<server>/w/api.php`. */
    const site: Gateway

    /** `$this->w` has been created. */
    var connected: bool
    var error: Option<string>
    var nsByName: map<string, int>
    var nsById: map<int, string>
    /** The page identifier of `$this->pageRevision`, `None` while it is null. */
    var revision: Option<string>
    var templateName: Option<string>

    function Config(): Conf
    {
      Conf(server, user, pass, site.credentials, site.templateReplies, site.siteinfo, site.saveErrors)
    }

    ghost function Snapshot(): State
      reads this, site
    {
      State(connected, error, nsByName, nsById, revision, templateName, site.loggedIn, site.texts, site.log)
    }

    ghost predicate Valid()
      reads this
    {
      nsByName == map[] ==> nsById == map[]
    }

    /** `new WikiApi($wiki)`: only the host name is computed. */
    constructor (wiki: string, user: string, pass: string, site: Gateway)
      ensures this.wiki == wiki && server == WebserverForWiki(wiki)
      ensures this.user == user && this.pass == pass && this.site == site
      ensures !connected && error == None && revision == None && templateName == None
      ensures nsByName == map[] && nsById == map[]
      ensures Valid()
    {
      this.wiki := wiki;
      server := WebserverForWiki(wiki);
      this.user := user;
      this.pass := pass;
      this.site := site;
      connected := false;
      error := None;
      nsByName := map[];
      nsById := map[];
      revision := None;
      templateName := None;
    }

    method InitMWApi() returns (ok: bool)
      modifies this, site
      ensures (ok, Snapshot()) == InitStep(Config(), old(Snapshot()))
    {
      connected := true;
      if !site.loggedIn {
        ok := site.Login(user, pass);
        if !ok {
          error := Some("Bot login failed for " + server + ": " + user + ", " + pass);
          return;
        }
      }
      ok := true;
    }

    method LoadPageText(page: string) returns (text: Option<string>)
      modifies this, site
      ensures (text, Snapshot()) == LoadTextStep(Config(), old(Snapshot()), page)
    {
      var title := Replace(page, ' ', '_');
      var ok := InitMWApi();
      if !ok {
        return None;
      }
      text := site.Fetch(title);
      if text.None? {
        revision := None;
        error := Some(CouldNotGetPage);
      } else {
        revision := Some(title);
      }
    }

    method SavePage(content: string, summary: string) returns (r: Outcome<bool>)
      modifies this, site
      ensures (r, Snapshot()) == SaveStep(Config(), old(Snapshot()), content, summary)
    {
      if revision.None? {
        return Crashed(NullRevision);
      }
      var err := site.Save(revision.value, content, summary);
      if err.Some? {
        error := err;
        return Returned(false);
      }
      return Returned(true);
    }

    method HasTemplate(page: string) returns (r: Outcome<bool>)
      modifies site
      ensures (r, Snapshot()) == HasTemplateStep(Config(), old(Snapshot()), page)
    {
      if !connected {
        return Crashed(NullClient);
      }
      var reply := site.QueryTemplates(page, templateName);
      return Returned(HasTemplateResult(reply));
    }

    method LoadNamespaces() returns (r: Outcome<map<string, int>>)
      requires Valid()
      modifies this, site
      ensures Valid()
      ensures (r, Snapshot()) == LoadNamespacesStep(Config(), old(Snapshot()))
    {
      if |nsByName| > 0 {
        return Returned(nsByName);
      }
      var ok := InitMWApi();
      if !ok {
        return Returned(nsByName);
      }
      var reply := site.QuerySiteInfo();
      if reply.None? {
        return Threw(FailedToLoad);
      }
      var entries := reply.value;
      ghost var before := Snapshot();
      var i := 0;
      while i < |entries|
        invariant 0 <= i <= |entries|
        invariant Snapshot() == before.(byName := NameIndex(entries[..i]), byId := IdIndex(entries[..i]))
      {
        var e := entries[i];
        nsByName := nsByName[e.name := e.id][e.canonical := e.id];
        nsById := nsById[e.id := e.canonical];
        assert entries[..i + 1][..i] == entries[..i];
        i := i + 1;
      }
      assert entries[..|entries|] == entries;
      if entries != [] {
        assert entries[|entries| - 1].canonical in nsByName;
      }
      return Returned(nsByName);
    }

    method IsTalkNamespace(name: string) returns (r: Outcome<bool>)
      requires Valid()
      modifies this, site
      ensures Valid()
      ensures (r, Snapshot()) == IsTalkStep(Config(), old(Snapshot()), name)
    {
      var ns := LoadNamespaces();
      if !ns.Returned? {
        return Propagate(ns);
      }
      return Namespaces.IsTalkNamespace(ns.value, name);
    }

    method GetSubjectFromTalkNS(name: string) returns (r: Outcome<Option<string>>)
      requires Valid()
      modifies this, site
      ensures Valid()
      ensures (r, Snapshot()) == SubjectNsStep(Config(), old(Snapshot()), name)
    {
      var ns := LoadNamespaces();
      if !ns.Returned? {
        return Propagate(ns);
      }
      return Returned(SubjectNs(ns.value, nsById, name));
    }

    method GetTalkFromSubjectNS(name: string) returns (r: Outcome<Option<string>>)
      requires Valid()
      modifies this, site
      ensures Valid()
      ensures (r, Snapshot()) == TalkNsStep(Config(), old(Snapshot()), name)
    {
      var ns := LoadNamespaces();
      if !ns.Returned? {
        return Propagate(ns);
      }
      return Returned(TalkNs(ns.value, nsById, name));
    }

    method SetTemplate(template: string)
      modifies this
      ensures Snapshot() == old(Snapshot()).(template := Some(template))
    {
      templateName := Some(template);
    }

    method GetSubjectFromTalk(page: string) returns (r: Outcome<string>)
      requires Valid()
      modifies this, site
      ensures Valid()
      ensures (r, Snapshot()) == SubjectStep(Config(), IntendedLimit, old(Snapshot()), page)
    {
      var (ns, name) := Split(page, IntendedLimit);
      if Empty(name) {
        return Returned(page);
      }
      var talk := IsTalkNamespace(ns);
      if !talk.Returned? {
        return Propagate(talk);
      }
      if !talk.value {
        return Returned(page);
      }
      var subject := GetSubjectFromTalkNS(ns);
      if !subject.Returned? {
        return Propagate(subject);
      }
      return Returned(NullToEmpty(subject.value) + ":" + name.value);
    }

    method GetTalkFromSubject(page: string) returns (r: Outcome<Option<string>>)
      requires Valid()
      modifies this, site
      ensures Valid()
      ensures (r, Snapshot()) == TalkStep(Config(), IntendedLimit, old(Snapshot()), page)
    {
      var (ns, name) := Split(page, IntendedLimit);
      if Empty(name) {
        return Returned(None);
      }
      var talk := IsTalkNamespace(ns);
      if !talk.Returned? {
        return Propagate(talk);
      }
      if talk.value {
        return Returned(None);
      }
      var talkNs := GetTalkFromSubjectNS(ns);
      if !talkNs.Returned? {
        return Propagate(talkNs);
      }
      return Returned(Some(NullToEmpty(talkNs.value) + ":" + name.value));
    }

    method WriteToPage(pageTo: string, content: string) returns (r: Outcome<bool>)
      requires Valid()
      modifies this, site
      ensures Valid()
      ensures (r, Snapshot()) == WriteStep(Config(), IntendedLimit, old(Snapshot()), pageTo, content)
    {
      var ok := InitMWApi();
      if !ok {
        return Returned(false);
      }
      var oldContent := LoadPageText(pageTo);
      if oldContent != Some(content) {
        r := WriteChanged(pageTo, content);
        return;
      }
      return Returned(true);
    }

    /** The body of `writeToPage`'s changed-content branch: the page, or else
        its talk page, must use the mirror template before the page is saved. */
    method WriteChanged(pageTo: string, content: string) returns (r: Outcome<bool>)
      requires Valid()
      modifies this, site
      ensures Valid()
      ensures (r, Snapshot()) == Client.WriteChanged(Config(), IntendedLimit, old(Snapshot()), pageTo, content)
    {
      var onPage := HasTemplate(pageTo);
      if !onPage.Returned? {
        return Propagate(onPage);
      }
      if !onPage.value {
        var talkPage := GetTalkFromSubject(pageTo);
        if !talkPage.Returned? {
          return Propagate(talkPage);
        }
        if Empty(talkPage.value) {
          return Returned(true);
        }
        var onTalk := HasTemplate(talkPage.value.value);
        if !onTalk.Returned? {
          return Propagate(onTalk);
        }
        if !onTalk.value {
          return Returned(true);
        }
      }
      var saved := SavePage(content, Summary);
      if saved.Crashed? {
        return saved;
      }
      return Returned(true);
    }
  }

  /** `WikiApi::$perWiki`, the clients created so far by wiki id. Every stored
      client keeps its own invariant, so a client it hands out can be used for
      `writeToPage`. */
  class Registry {
    var perWiki: map<string, WikiApi>

    ghost predicate Valid()
      reads this, set w | w in perWiki :: perWiki[w]
    {
      forall w :: w in perWiki ==> perWiki[w].wiki == w && perWiki[w].Valid()
    }

    constructor ()
      ensures perWiki == map[] && Valid()
    {
      perWiki := map[];
    }

    /** `WikiApi::getForWiki($wiki)`: the client already created for the wiki, or
        a new one, stored before it is returned. `site` is the session the new
        client would open. */
    method GetForWiki(wiki: string, user: string, pass: string, site: Gateway) returns (api: WikiApi)
      requires Valid()
      modifies this
      ensures Valid() && api.wiki == wiki && wiki in perWiki && perWiki[wiki] == api && api.Valid()
      ensures wiki in old(perWiki) ==> api == old(perWiki)[wiki] && perWiki == old(perWiki)
      ensures wiki !in old(perWiki) ==>
        fresh(api) && perWiki == old(perWiki)[wiki := api] &&
        api.server == WebserverForWiki(wiki) && api.site == site && api.Valid()
    {
      if wiki !in perWiki {
        api := new WikiApi(wiki, user, pass, site);
        perWiki := perWiki[wiki := api];
      } else {
        api := perWiki[wiki];
      }
    }
  }
}
