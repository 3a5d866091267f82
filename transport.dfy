/** The wiki as `WikiApi` reaches it through the MediawikiApi client and the
    services of MediawikiFactory: a session that may be logged in, the latest
    text of each page, the reply to the templates query, the siteinfo reply and
    the revision saver. What the wiki answers is given when the gateway is
    created; what changes is the session, the page texts (a save replaces a
    page's text) and a ghost log of every request made. */
module Transport {
  import opened Php
  import opened Namespaces

  /** One page in the reply to the `action=query` request that `hasTemplate`
      sends (`titles`, `tltemplates` and `format`; no `prop`): its `templates`
      list, or nothing when the key is missing. */
  datatype PageTemplates = PageTemplates(templates: Option<seq<string>>)

  /** The reply's `query.pages`, in reply order, or nothing when the reply has no
      such key (or is not an array at all). */
  datatype TemplatesReply = TemplatesReply(pages: Option<seq<PageTemplates>>)

  /** The reply to the templates query for a title and a `tltemplates` value;
      a pair the wiki has no reply for gets a reply without pages. */
  function ReplyIn(replies: map<(string, Option<string>), TemplatesReply>, title: string, template: Option<string>)
    : TemplatesReply
  {
    if (title, template) in replies then replies[(title, template)] else TemplatesReply(None)
  }

  /** A request made to the wiki. */
  datatype Call =
    | Login(user: string, pass: string)
    | Fetch(title: string)
    | TemplatesQuery(title: string, template: Option<string>)
    | SiteInfoQuery
    | Save(title: string, content: string, summary: string)

  class Gateway {
    /** The user and password pairs the wiki accepts. */
    const credentials: set<(string, string)>
    /** The templates reply for a title and a `tltemplates` value. */
    const templateReplies: map<(string, Option<string>), TemplatesReply>
    /** The decoded siteinfo reply's namespaces, or nothing when the reply is falsy. */
    const siteinfo: Option<seq<NsEntry>>
    /** Titles whose save the revision saver rejects, with the exception message. */
    const saveErrors: map<string, string>

    var loggedIn: bool
    /** The content of the latest revision of every existing page. */
    var texts: map<string, string>
    ghost var log: seq<Call>

    /** A new client session: not logged in, nothing requested yet. */
    constructor (credentials: set<(string, string)>, texts: map<string, string>,
                 templateReplies: map<(string, Option<string>), TemplatesReply>,
                 siteinfo: Option<seq<NsEntry>>, saveErrors: map<string, string>)
      ensures this.credentials == credentials && this.texts == texts
      ensures this.templateReplies == templateReplies && this.siteinfo == siteinfo
      ensures this.saveErrors == saveErrors
      ensures !loggedIn && log == []
    {
      this.credentials := credentials;
      this.texts := texts;
      this.templateReplies := templateReplies;
      this.siteinfo := siteinfo;
      this.saveErrors := saveErrors;
      loggedIn := false;
      log := [];
    }

    /** `login(new ApiUser($user, $pass))`: succeeds exactly for accepted credentials. */
    method Login(user: string, pass: string) returns (ok: bool)
      modifies this
      ensures ok <==> (user, pass) in credentials
      ensures loggedIn == (old(loggedIn) || ok)
      ensures texts == old(texts) && log == old(log) + [Call.Login(user, pass)]
    {
      ok := (user, pass) in credentials;
      loggedIn := loggedIn || ok;
      log := log + [Call.Login(user, pass)];
    }

    /** The content of the latest revision of `title`, if the page exists. */
    method Fetch(title: string) returns (text: Option<string>)
      modifies this
      ensures text == Lookup(texts, title)
      ensures loggedIn == old(loggedIn) && texts == old(texts)
      ensures log == old(log) + [Call.Fetch(title)]
    {
      text := Lookup(texts, title);
      log := log + [Call.Fetch(title)];
    }

    method QueryTemplates(title: string, template: Option<string>) returns (reply: TemplatesReply)
      modifies this
      ensures reply == ReplyIn(templateReplies, title, template)
      ensures loggedIn == old(loggedIn) && texts == old(texts)
      ensures log == old(log) + [Call.TemplatesQuery(title, template)]
    {
      reply := ReplyIn(templateReplies, title, template);
      log := log + [Call.TemplatesQuery(title, template)];
    }

    method QuerySiteInfo() returns (reply: Option<seq<NsEntry>>)
      modifies this
      ensures reply == siteinfo
      ensures loggedIn == old(loggedIn) && texts == old(texts)
      ensures log == old(log) + [Call.SiteInfoQuery]
    {
      reply := siteinfo;
      log := log + [Call.SiteInfoQuery];
    }

    /** Saves a new revision of `title`, or reports the saver's exception message. */
    method Save(title: string, content: string, summary: string) returns (err: Option<string>)
      modifies this
      ensures err == Lookup(saveErrors, title)
      ensures texts == if err.None? then old(texts)[title := content] else old(texts)
      ensures loggedIn == old(loggedIn) && log == old(log) + [Call.Save(title, content, summary)]
    {
      err := Lookup(saveErrors, title);
      if err.None? {
        texts := texts[title := content];
      }
      log := log + [Call.Save(title, content, summary)];
    }
  }
}
