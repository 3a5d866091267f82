# clonebot in Dafny

clonebot mirrors pages from mediawiki.org to other Wikimedia wikis. The pages it mirrors use the mirror template, Wikidata item Q28226172. For each page the bot takes the Wikidata item of the page, reads the item's sitelinks, and writes the page's text to every linked wiki. It writes only when the text differs and the target page, or its talk page, uses the local mirror template.

This project models the two source files that make up the bot:

- **`WikiApi.php`.** This is the per-wiki client. It holds the namespace maps (`nsByName`, `nsById`), the mirror template name, the last error and the last loaded revision. The parts modelled are:
  - loading namespaces from the siteinfo reply;
  - the namespace queries;
  - translation between a subject page title and its talk page title;
  - the `writeToPage` decision;
  - the per-wiki instance cache `getForWiki`.

  `class Wiki.WikiApi` keeps `nsByName`, `nsById`, `templateName`, `error`, `wiki_server` (as `server`) and the `bot.ini` user and password. `$this->w` becomes the flag `connected` together with the session `site`, and `pageRevision` becomes `revision`, the page it belongs to. `services` and `pageHandle` are not kept: they only hold library objects. Each method is proved to do exactly what a pure step function of module `Client` does to a `State` value. A `State` holds the client's fields, the session and the page texts, plus a ghost log of requests. The properties are lemmas about those functions.
- **`clonebot.php`.** This is the driver script. The parts modelled are:
  - the host name of a wiki;
  - the `/doc` filter;
  - Wikidata id extraction and sitelink projection;
  - the choice of write targets per Wikidata entity;
  - the base template lookup;
  - the script-level `writeToPage`.

The wiki itself is `class Transport.Gateway`. It stands in for the MediawikiApi session and the MediawikiFactory services. Its answers are given when it is created. What changes is the login state and the page texts, and a ghost log records every request. PHP semantics the code relies on are stated in module `Php`: `empty()`, `explode` with a limit, `str_replace`, `substr($s, -4, 4)`, and ordered arrays with string keys. Exceptions and fatal errors are results (`Outcome`): `Threw(message)` or `Crashed(message)`.

Modules: `Php`, `Namespaces`, `Titles`, `Hosts`, `Transport`, `Client`, `Wiki`, `Clonebot`.

## Model

| member | source | states |
|---|---|---|
| Php.Propagate | WikiApi.php:289-292 | An uncaught exception or fatal error reaches the caller unchanged, with the same kind and message. |
| Php.ReplaceRemoves | WikiApi.php:81 | After spaces are turned into underscores no space is left, and doing it again changes nothing. |
| Php.LastFour | clonebot.php:32 | `substr($p, -4, 4)` is the last four elements, or the whole string when it is shorter. PHP counts bytes and the model counts characters; for the comparison with the ASCII "/doc" both agree on UTF-8 titles. |
| Php.Get | clonebot.php:45 | `$a[$k]` is null exactly when the key is absent; otherwise it is a value stored under that key. |
| Php.Remove | clonebot.php:54 | `unset($a[$k])` keeps exactly the entries with another key. |
| Php.RemoveAppend | clonebot.php:54 | `unset` keeps the order of what it leaves: removing from two runs of entries is removing from each, in the same order. |
| Php.RemoveSnoc | clonebot.php:54 | An entry added last stays last after `unset` exactly when its key is another one. |
| Namespaces.IndexKeys | WikiApi.php:219-223 | After the load loop, the keys of `nsByName` are exactly the names and canonical names of the reply, and the keys of `nsById` are exactly its ids. |
| Namespaces.NameIndexSound | WikiApi.php:219-221 | When no name is shared between namespaces, both the name and the canonical name of every entry map to its id. |
| Namespaces.IdIndexSound | WikiApi.php:219-222 | When each id occurs once, `nsById[id]` is that namespace's canonical name. |
| Namespaces.LoadedIsConsistent | WikiApi.php:219-223 | Such a reply loads into maps that agree: every canonical name in `nsById` looks up its own id in `nsByName`. |
| Namespaces.IsTalkNamespace | WikiApi.php:236-243 | Throws "Unknown namespace <name>" exactly when the name is not loaded. Otherwise it is true iff the id is positive and odd. |
| Namespaces.SubjectNs | WikiApi.php:250-253 | The name stored for id − 1. An unknown name reads as null, so it becomes the name stored for −1. |
| Namespaces.TalkNs | WikiApi.php:260-268 | Non-null iff the name is known, its id is positive and id + 1 is stored; the value is then the name stored for id + 1. |
| Namespaces.MainHasNoTalk | WikiApi.php:262 | Id 0 passes `empty()`, so the main namespace never has a talk namespace. |
| Namespaces.NsRoundTrip | WikiApi.php:236-268 | On consistent maps, the talk namespace of a subject namespace is a talk namespace, and its subject is the canonical name of the original. |
| Titles.Split | WikiApi.php:284 | With limit 1 the title is one piece and `$name` is null. With limit 2 a title with a colon is always split, into a colon-free prefix, ":" and the rest; a title without one is a single piece. |
| Titles.SubjectFromTalk | WikiApi.php:283-293 | Case by case: a title without a second piece, or with a known non-talk prefix, is returned unchanged; it throws "Unknown namespace <prefix>" exactly for an unknown prefix; a known talk prefix is replaced by the name stored for its id − 1 (null reads as ""), followed by ":" and the rest. |
| Titles.TalkFromSubject | WikiApi.php:300-310 | Case by case: null without a second piece or for a known talk prefix; it throws "Unknown namespace <prefix>" exactly for an unknown prefix; a known subject prefix gives the talk namespace's name (null reads as ""), ":" and the rest. |
| Titles.AsWrittenIsInert | WikiApi.php:284-287 | As written (limit 1), every title is its own subject page and no title has a talk page, whatever the maps hold. |
| Titles.HelpPageCounterexample | WikiApi.php:283-310 | For "Help:Foo" with Help = 12 and Help talk = 13, the as-written functions find no talk page and no subject. The intended split maps "Help:Foo" to "Help talk:Foo" and back. |
| Titles.TalkThenSubject | WikiApi.php:283-310 | Intended split: a subject title goes to "<talk ns>:<rest>", and that goes back to the canonical subject namespace name with the same rest. |
| Titles.TalkRoundTrip | WikiApi.php:283-310 | Intended split: `getSubjectFromTalk(getTalkFromSubject(t)) == t` when t's prefix is a canonical name with a talk namespace. |
| Titles.NoTalkNamespaceGivesBareColon | WikiApi.php:309 | Intended split: a subject namespace without a talk namespace, id 0 included, gives ":<rest>" and not null. |
| Titles.UnknownPrefixThrows | WikiApi.php:238-240 | Intended split: a prefix that is not a namespace name throws "Unknown namespace <prefix>" in both directions. |
| Titles.TalkOfTalkIsNull | WikiApi.php:306-308 | A page in a talk namespace has no talk page. |
| Hosts.Core | clonebot.php:148-149 | The part of the subject that `$` can close: the subject without its final newline when it ends in one, and the whole subject otherwise. |
| Hosts.WikipediaMatch | clonebot.php:148 | `^(.+)wiki$` matches iff the subject is a non-empty newline-free group followed by "wiki", and yields that group. |
| Hosts.LastWik | clonebot.php:149 | The greedy `(.+)` ends at the last "wik" that has a character before it and one after it. |
| Hosts.SiteMatch | clonebot.php:149 | `^(.+)(wik.+)$` matches iff such a "wik" exists and there is no newline. The groups join to the subject and split at the last such "wik". |
| Hosts.FixedHosts | clonebot.php:143-146 | The four fixed hosts. |
| Hosts.WikipediaRule | clonebot.php:147-148 | "<lang>wiki" is served by "<lang with '_' turned into '-'>.wikipedia.org". |
| Hosts.SiteRule | clonebot.php:147-149 | Other names matching the second pattern are served by "<group 1>.<group 2>.org", with group 2 starting "wik". |
| Hosts.ZhYueExample | clonebot.php:147-148 | "zh_yuewiki" is served by "zh-yue.wikipedia.org". |
| Hosts.WiktionaryExample | clonebot.php:147-149 | "enwiktionary" is served by "en.wiktionary.org". |
| Hosts.NoMatchRule | clonebot.php:147-150 | A name that is not special and matches neither pattern is served by "". |
| Hosts.BareWikiExample | clonebot.php:147-150 | "wiki" matches neither pattern, so its host is "". |
| Transport.Gateway.Login | WikiApi.php:69 | The login succeeds exactly for accepted credentials. It is logged, and the session stays logged in. |
| Transport.Gateway.Fetch | WikiApi.php:87-94 | The latest revision's text, or nothing for a missing page. |
| Transport.Gateway.QueryTemplates | WikiApi.php:165-174 | The reply to the `action=query` request with `titles` and `tltemplates` (and no `prop`) for a title and a `tltemplates` value. The request is logged. |
| Transport.Gateway.QuerySiteInfo | WikiApi.php:207-217 | The siteinfo reply. |
| Transport.Gateway.Save | WikiApi.php:100-107 | Saves the content as the page's text, or returns the saver's exception message and changes no text. The request is logged either way. |
| Client.HasTemplateResult | WikiApi.php:175-179 | False when `query.pages` is missing or empty. Otherwise true iff the first page's `templates` is non-empty. |
| Client.OnlyFirstPageCounts | WikiApi.php:178 | Pages after the first never change the result. |
| Client.LoadedMaps | WikiApi.php:199-228 | Filled maps are kept, and so are the empty maps of a client that cannot log in. A falsy reply throws "Failed to load namespaces", exactly when the maps are empty and the client can log in. Otherwise the maps are those of the reply. |
| Client.LoadIsCached | WikiApi.php:200-202 | Once `nsByName` is non-empty, the load returns it, changes nothing and makes no request. |
| Client.LoadIsIdempotent | WikiApi.php:199-228 | A second load returns what the first left, and the first load's result is `LoadedMaps`. |
| Client.LoadFailureThrows | WikiApi.php:218-226 | A falsy reply throws "Failed to load namespaces" and fills nothing. |
| Client.LoadFillsMaps | WikiApi.php:217-223 | After a load, every entry's name and canonical name map to its id, `nsById[id]` is its canonical name, and the maps are consistent. |
| Client.LoadLogQuiet | WikiApi.php:199-228 | Loading the namespaces makes no save and no templates query. |
| Client.TalkFound | WikiApi.php:300-310 | The talk title is never a fatal error. It throws only "Failed to load namespaces" or "Unknown namespace <prefix>". |
| Client.TalkStepAgrees | WikiApi.php:300-310 | The stateful `getTalkFromSubject`, with its two cached loads, equals `TalkFromSubject` over the maps as loaded. |
| Client.TalkStepQuiet | WikiApi.php:300-310 | Translating a title keeps the texts, the template and the revision. It makes no save and no templates query. |
| Client.SubjectStepAgrees | WikiApi.php:283-293 | The stateful `getSubjectFromTalk`, with its two cached loads, equals `SubjectFromTalk` over the maps as loaded. |
| Client.SubjectStepQuiet | WikiApi.php:283-293 | Translating a title to its subject keeps the texts, the template and the revision. It makes no save and no templates query. |
| Client.AsWrittenTranslationIsInert | WikiApi.php:283-310 | As written, the client translates no title and changes no state. |
| Client.Decide | WikiApi.php:133-157 | For each outcome, the exact condition: login failed; unchanged; write (template on the page, or on an existing talk page); abort (talk lookup threw); skip otherwise. |
| Client.InitFacts | WikiApi.php:61-78 | `initMWApi` succeeds iff the session is or can be logged in. It logs one login request only when it was not logged in, and leaves maps, texts and revision alone. |
| Client.LoadTextFacts | WikiApi.php:80-95 | On a live session, the text of the underscored title is returned. The revision is set iff the page exists, and one fetch is logged. |
| Client.WriteSaves | WikiApi.php:97-110 | Saving after a load either crashes on the null revision with no save, or saves the content to the loaded page once and returns true. |
| Client.ViaTalkFollows | WikiApi.php:141-152 | The talk page branch saves iff a talk page exists and uses the template. Otherwise it returns true without a save. |
| Client.ChangedFollows | WikiApi.php:138-152 | Once the text differs, the page saves iff the page uses the template or the talk-page branch finds it there. |
| Client.WriteFollowsDecision | WikiApi.php:133-157 | `writeToPage` does what `Decide` chooses. False only on login failure. One save with the summary "Updating from source wiki" for a write. No save otherwise. No templates query when unchanged or when login fails. |
| Client.SecondWriteIsNoOp | WikiApi.php:137-138 | After a write that saved, writing the same content again returns true with no save and no templates query. |
| Client.AsWrittenWritesOnlyTemplatedPages | WikiApi.php:140-150 | As written, the talk page branch never saves: a page is written only when it uses the template itself. |
| Client.NoListedTemplatesOffPage | WikiApi.php:175-179 | A reply in which no page carries a `templates` list never reports the template. |
| Client.NoListedTemplatesNeverSave | WikiApi.php:133-179 | When no templates reply lists templates, `writeToPage` never decides to write and never saves, for any page, content, limit or session. |
| Wiki.WikiApi.constructor | WikiApi.php:57-59 | A new client knows only its host, `getWebserverForWiki($wiki)`. |
| Wiki.WikiApi.InitMWApi | WikiApi.php:61-78 | Equals `Client.InitStep`: login when needed, and the "Bot login failed" error on failure. |
| Wiki.WikiApi.LoadPageText | WikiApi.php:80-95 | Equals `Client.LoadTextStep`: spaces become underscores; the text or `false`; "Could not get page" for a missing page. |
| Wiki.WikiApi.SavePage | WikiApi.php:97-110 | Equals `Client.SaveStep`: a fatal error without a revision, false with the saver's message, true otherwise. |
| Wiki.WikiApi.HasTemplate | WikiApi.php:164-180 | Equals `Client.HasTemplateStep`: a fatal error before any connection; otherwise the result test of the reply. |
| Wiki.WikiApi.LoadNamespaces | WikiApi.php:199-228 | Equals `Client.LoadNamespacesStep`. The `foreach` builds the maps entry by entry, and the loop invariant keeps them equal to the indexes of the entries so far. |
| Wiki.WikiApi.IsTalkNamespace | WikiApi.php:236-243 | Equals `Client.IsTalkStep`. |
| Wiki.WikiApi.GetSubjectFromTalkNS | WikiApi.php:250-253 | Equals `Client.SubjectNsStep`. |
| Wiki.WikiApi.GetTalkFromSubjectNS | WikiApi.php:260-268 | Equals `Client.TalkNsStep`. |
| Wiki.WikiApi.SetTemplate | WikiApi.php:274-276 | Only the template name changes. |
| Wiki.WikiApi.GetSubjectFromTalk | WikiApi.php:283-293 | Equals `Client.SubjectStep` with the intended split. |
| Wiki.WikiApi.GetTalkFromSubject | WikiApi.php:300-310 | Equals `Client.TalkStep` with the intended split. |
| Wiki.WikiApi.WriteToPage | WikiApi.php:133-157 | Equals `Client.WriteStep` with the intended split, so `Client.WriteFollowsDecision` describes it. |
| Wiki.WikiApi.WriteChanged | WikiApi.php:138-152 | Equals `Client.WriteChanged`. |
| Wiki.Registry.GetForWiki | WikiApi.php:187-192 | Returns the stored instance for a known wiki and changes nothing. Otherwise it creates, stores and returns a new instance for that wiki's host. Every stored client keeps its invariant, so the client returned can be used for `writeToPage`. |
| Clonebot.DropDocPagesSound | clonebot.php:31-33 | Every kept entry is a title under its own key, and none ends in "/doc". |
| Clonebot.DropDocPagesOrdered | clonebot.php:31-33 | Keys are strictly increasing along the result, so the list's order is kept. |
| Clonebot.DropDocPagesComplete | clonebot.php:31-33 | Every title not ending in "/doc" is kept under its own key. |
| Clonebot.ItemsOfExact | clonebot.php:128-133 | An id is returned iff some page has it as a non-empty `wikibase_item`. |
| Clonebot.ItemsOfAppend | clonebot.php:128-133 | Ids come out in page order: the ids of two runs of pages are the ids of the first run, then those of the second. |
| Clonebot.WikidataIds | clonebot.php:127-134 | The `foreach` collects exactly `ItemsOf` of the pages. |
| Clonebot.IdsParamNamesIds | clonebot.php:83-86 | The `ids` parameter names exactly the requested ids, in order: splitting it at the separator gives them back, when no id contains the separator. |
| Clonebot.TemplateRequest | clonebot.php:16 | The template lookup's `ids` parameter is the template's id alone. |
| Clonebot.LinksOfDistinct | clonebot.php:100-104 | For a sitelinks object (distinct keys) the projection keeps every wiki, in order, with its title. |
| Clonebot.SitelinkTitles | clonebot.php:100-104 | The closure's loop builds `LinksOf` of the sitelinks, or `[]` for an entity without sitelinks. |
| Clonebot.WikidataLinks | clonebot.php:95-106 | `[]` without entities. Otherwise, in order and under each entity's own id, that entity's links. |
| Clonebot.BaseTemplate | clonebot.php:18-26 | The script dies with "Base wiki template not defined" exactly when the template's links have no non-empty base wiki title. Otherwise the value is that title, `$templateWikis[BASE_WIKI]`. |
| Clonebot.AsWrittenTemplateLookupDies | clonebot.php:16-19 | As written, `[0]` on a reply keyed by entity ids is null, so the script always dies. |
| Clonebot.TemplateLookupFindsBase | clonebot.php:16-20 | Looking the template up under its own id finds its base wiki title whenever the entity links one. |
| Clonebot.WritesTo | clonebot.php:55-57 | One write per remaining link, in order, with the base content. |
| Clonebot.JobsForExact | clonebot.php:44-57 | For one entity: nothing without a base link or without non-empty base text. Otherwise a write exactly for each linked wiki except the base wiki. |
| Clonebot.AllJobsSafe | clonebot.php:44-58 | No write ever targets the base wiki, and every write carries non-empty content. |
| Clonebot.SelectTargets | clonebot.php:44-58 | The nested loops produce exactly `AllJobs` of the entities. |
| Clonebot.ChooseWrites | clonebot.php:45-57 | One pass of the main loop body produces exactly `JobsFor` of the entity's links. |
| Clonebot.WriteAll | clonebot.php:55-57 | The inner loop produces `WritesTo` of the remaining links. |
| Clonebot.UncheckedSavesIffChanged | clonebot.php:66-74 | On a session that can log in and an existing page, the script's `writeToPage` saves iff the text differs. It never asks about templates. |
| Clonebot.UncheckedWriteAfterFailedLogin | clonebot.php:66-70 | When the login fails, `false` differs from any content, so the save goes ahead on whatever revision the client holds: with none it dies, and with an earlier one that page would get the new content. The second case needs a revision without a session, which no step reaches (`Client.StepsKeepRevisionSession`). |
| Client.StepsKeepRevisionSession | WikiApi.php:61-110 | A loaded revision implies a live session, and `initMWApi`, `loadPageText` and `savePage` keep it so: no step ends a session, and a page is read only after a login. |
| Clonebot.UncheckedKeepsRevisionSession | clonebot.php:66-74 | The script's `writeToPage` keeps that invariant. |
| Clonebot.FailedLoginCrashes | clonebot.php:66-70 | In every state the steps reach, a refused login makes the script's `writeToPage` die on the null revision, after logging only the login and changing no text. |
| Clonebot.UncheckedWriteMissingPage | clonebot.php:66-70 | A page that does not exist leaves a null revision, so the save dies and nothing is saved. |
| Clonebot.WriteToPageUnchecked | clonebot.php:66-74 | Equals `Clonebot.UncheckedWriteStep` on the client it is given. |

## Left out

- HTTP, JSON and URLs are not modelled. This covers the Guzzle requests, status checks with `die`, `json_decode`, `urlencode` and URL building (clonebot.php:87-94, 117-126); of the request only the `ids` parameter (`Clonebot.IdsParam`) is modelled. The decoded replies are inputs.
- The MediawikiApi and MediawikiFactory internals, page getters and the revision saver are library code. `Transport.Gateway` gives their observable behaviour. The edit flags (minor, bot) of `savePage` are not modelled.
- `bot.ini` is not read. The user and password are constructor arguments of `WikiApi`, and the accepted credentials belong to the gateway.
- `getTransclusions` (WikiApi.php:117-125) is the page-list library call. The driver's `/doc` filter takes its list of titles as input.
- `$mainPages` (clonebot.php:35-37) is computed and never read. As written it is the identity (`Titles.AsWrittenIsInert`).
- The loop assigning each wiki its template (clonebot.php:22-24) is not modelled: it spans many client objects. So is the dispatch of each chosen write through `getForWiki` (clonebot.php:56). `Clonebot.SelectTargets` returns the writes the script tries, as a list. Each write is `Client.WriteStep` at `AsWrittenLimit` (the one-piece split), not `Wiki.WikiApi.WriteToPage`. The first write that throws or dies ends the script, so the list is the writes it tries up to that point.
- The base text for each entity is given as a map from title to text, standing for `loadPageText` on the base client. A login failure there reads like a missing page.
- `echo` output (WikiApi.php:154, clonebot.php:72) is not modelled.
- Wiki.WikiApi.GetSubjectFromTalk, Wiki.WikiApi.GetTalkFromSubject, Wiki.WikiApi.WriteToPage and Wiki.WikiApi.WriteChanged use the two-piece split, not the source's one-piece split. The one-piece behaviour is stated by `Titles.AsWrittenIsInert`, `Client.AsWrittenTranslationIsInert` and `Client.AsWrittenWritesOnlyTemplatedPages`.
- Client.LoadNamespacesStep assumes `nsById` is empty while `nsByName` is. `Wiki.WikiApi.Valid` keeps this for every client.
- The namespace entries' `name` and `canonical` are plain strings. A reply entry without a canonical name, whose key PHP reads as "", is not distinguished.
- Arrays with string keys follow PHP insertion order. Key normalisation (a numeric string key becoming an integer) is modelled only for the key 0 that the template lookup uses.
- Clonebot.Entity: the decoded `sitelinks` object holds each wiki's title directly; the step that reads `$data['title']` from each sitelink (clonebot.php:102) is folded into the input.
- Clonebot.WikidataLinks: an entity without `sitelinks` (a missing entity) gives no links. PHP also emits a warning there.
- Exception messages from the revision saver are given per title by the gateway.
- Transport.Gateway.QueryTemplates: the templates reply is an input, read as if it could list the page's templates as a `prop=templates` query does. What MediaWiki answers to the request as sent is not modelled; `Client.ListsNoTemplates` states the reading in which no reply lists templates (see Findings).

## Findings

| source | as written | input that shows it | evidently intended | confidence | as-written member | corrected member |
|---|---|---|---|---|---|---|
| WikiApi.php:284, WikiApi.php:301 | `explode(":", $page, 1)` returns one piece, so `$name` is always null: `getSubjectFromTalk` is the identity and `getTalkFromSubject` always null | "Help:Foo" on a wiki with Help = 12 and Help talk = 13: no talk page is found, so the talk page's template is never consulted | a limit of 2, splitting at the first colon | not executed | Titles.HelpPageCounterexample | Titles.TalkRoundTrip |
| clonebot.php:16 | `getWikidataLinks(TEMPLATE)[0]` reads key 0 of an array that `array_map` keeps keyed by entity id ("Q28226172"), so it is null and line 19 always dies | any reply, e.g. entities `{"Q28226172": {"sitelinks": {"mediawikiwiki": {"title": "Template:Mirrored"}}}}` | the entry for the template's own id | not executed | Clonebot.AsWrittenTemplateLookupDies | Clonebot.TemplateLookupFindsBase |
| WikiApi.php:165-172 | the `hasTemplate` query sends `titles`, `tltemplates` and `format` but no `prop=templates`, and `tltemplates` only filters that module's output, so no page in the reply carries `templates`; `hasTemplate` is always false and `writeToPage` never saves | any page with changed text that uses the mirror template | `'prop' => 'templates'` in the request, so the reply lists the template when the page uses it | not executed; rests on how the MediaWiki API reads a query without `prop` | Client.NoListedTemplatesNeverSave | Client.WriteFollowsDecision |
| clonebot.php:67-70 | the script's `writeToPage` compares `loadPageText`'s result with the content; after a failed login that result is `false`, which differs from any content, so it calls `savePage`, which dereferences the null `pageRevision` | a new client whose login is refused, asked to write any page: the script dies with a fatal error instead of skipping the page | stop when the login fails, as `WikiApi::writeToPage` does (WikiApi.php:134-136) | not executed; the script never calls this function | Clonebot.FailedLoginCrashes | Client.WriteFollowsDecision |
