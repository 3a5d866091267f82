/** The driver script: which pages of the base wiki are mirrored, which
    Wikidata items they belong to, the sitelinks of those items, and which
    page of which wiki each base page is written to. The HTTP requests are
    not modelled; their decoded replies are the inputs. */
module Clonebot {
  import opened Php
  import opened Transport
  import opened Client
  import opened Wiki

  const BaseWiki := "mediawikiwiki"
  const Template := "Q28226172"
  const BaseTemplateMissing := "Base wiki template not defined"

  // ---------------------------------------------------------------------------
  // Dropping documentation subpages

  /** A documentation subpage: `substr($p, -4, 4) === '/doc'`. */
  predicate IsDocPage(title: string)
  {
    LastFour(title) == "/doc"
  }

  /** The `array_filter` that drops `/doc` pages from the list of transclusions:
      the remaining titles, each with its key (its position in the list), in
      order. */
  function DropDocPages(titles: seq<string>): (r: seq<(nat, string)>)
    ensures |r| <= |titles|
  {
    if titles == [] then []
    else
      var n := |titles| - 1;
      var init := DropDocPages(titles[..n]);
      if IsDocPage(titles[n]) then init else init + [(n, titles[n])]
  }

  /** Every kept entry is a title under its own key, and none is a `/doc` page. */
  lemma {:induction false} DropDocPagesSound(titles: seq<string>)
    ensures forall i :: 0 <= i < |DropDocPages(titles)| ==>
      DropDocPages(titles)[i].0 < |titles| && titles[DropDocPages(titles)[i].0] == DropDocPages(titles)[i].1 &&
      !IsDocPage(DropDocPages(titles)[i].1)
  {
    if titles != [] {
      var n := |titles| - 1;
      var t := titles[..n];
      var init := DropDocPages(t);
      DropDocPagesSound(t);
      var r := DropDocPages(titles);
      forall i | 0 <= i < |r| ensures r[i].0 < |titles| && titles[r[i].0] == r[i].1 && !IsDocPage(r[i].1) {
        if i < |init| {
          assert r[i] == init[i];
          assert t[init[i].0] == titles[init[i].0];
        }
      }
    }
  }

  /** Keys increase along the result, so the list's order is kept. */
  lemma {:induction false} DropDocPagesOrdered(titles: seq<string>)
    ensures forall i :: 0 <= i < |DropDocPages(titles)| ==> DropDocPages(titles)[i].0 < |titles|
    ensures forall i, j :: 0 <= i < j < |DropDocPages(titles)| ==> DropDocPages(titles)[i].0 < DropDocPages(titles)[j].0
  {
    if titles != [] {
      var n := |titles| - 1;
      var t := titles[..n];
      var init := DropDocPages(t);
      DropDocPagesOrdered(t);
      var r := DropDocPages(titles);
      assert r == init || r == init + [(n, titles[n])];
      forall i | 0 <= i < |r| ensures r[i].0 < |titles| && (i < |init| ==> r[i] == init[i]) {
        if i < |init| {
          assert r[i] == init[i];
        }
      }
      forall i, j | 0 <= i < j < |r| ensures r[i].0 < r[j].0 {
        if j < |init| {
          assert r[i] == init[i] && r[j] == init[j];
        } else {
          assert r[j].0 == n && r[i] == init[i];
        }
      }
    }
  }

  /** Every title that does not end in "/doc" is kept, under its own key. */
  lemma {:induction false} DropDocPagesComplete(titles: seq<string>)
    ensures forall k :: 0 <= k < |titles| && !IsDocPage(titles[k]) ==> (k, titles[k]) in DropDocPages(titles)
  {
    if titles != [] {
      var n := |titles| - 1;
      var t := titles[..n];
      var init := DropDocPages(t);
      DropDocPagesComplete(t);
      var r := DropDocPages(titles);
      assert r == init || r == init + [(n, titles[n])];
      forall k | 0 <= k < |titles| && !IsDocPage(titles[k]) ensures (k, titles[k]) in r {
        if k < n {
          assert t[k] == titles[k];
          assert (k, t[k]) in init;
        } else {
          assert r == init + [(n, titles[n])];
          assert r[|init|] == (k, titles[k]);
        }
      }
    }
  }

  // ---------------------------------------------------------------------------
  // Wikidata ids of the base pages

  /** One page of the pageprops reply: its `pageprops.wikibase_item`, or nothing
      when either key is missing. */
  datatype PageProps = PageProps(item: Option<string>)

  /** The ids `getWikidataIds` collects from the pages of a reply, in page order. */
  function ItemsOf(pages: seq<PageProps>): (r: seq<string>)
    ensures |r| <= |pages|
  {
    if pages == [] then []
    else
      var last := pages[|pages| - 1];
      ItemsOf(pages[..|pages| - 1]) + (if Empty(last.item) then [] else [last.item.value])
  }

  /** Exactly the non-empty item ids are kept, and pages contribute in order. */
  lemma {:induction false} ItemsOfExact(pages: seq<PageProps>)
    ensures forall x :: x in ItemsOf(pages) <==> exists p :: p in pages && p.item == Some(x) && !Empty(p.item)
    ensures forall x :: x in ItemsOf(pages) ==> x != "" && x != "0"
  {
    if pages != [] {
      var init := pages[..|pages| - 1];
      ItemsOfExact(init);
      assert pages == init + [pages[|pages| - 1]];
    }
  }

  lemma {:induction false} ItemsOfAppend(a: seq<PageProps>, b: seq<PageProps>)
    ensures ItemsOf(a + b) == ItemsOf(a) + ItemsOf(b)
    decreases |b|
  {
    if b == [] {
      assert a + b == a;
    } else {
      var b' := b[..|b| - 1];
      assert (a + b)[..|a + b| - 1] == a + b';
      ItemsOfAppend(a, b');
    }
  }

  /** The loop of `getWikidataIds` over the decoded reply's pages. */
  method WikidataIds(pages: seq<PageProps>) returns (ids: seq<string>)
    ensures ids == ItemsOf(pages)
  {
    ids := [];
    var i := 0;
    while i < |pages|
      invariant 0 <= i <= |pages|
      invariant ids == ItemsOf(pages[..i])
    {
      var page := pages[i];
      assert pages[..i + 1][..i] == pages[..i];
      if Empty(page.item) {
        i := i + 1;
        continue;
      }
      ids := ids + [page.item.value];
      i := i + 1;
    }
    assert pages[..|pages|] == pages;
  }

  // ---------------------------------------------------------------------------
  // Sitelinks of Wikidata entities

  /** The `$qid` argument of `getWikidataLinks`: one id or an array of them. */
  datatype QidArg = One(id: string) | Many(ids: seq<string>)

  /** A scalar id is wrapped into a one-element array. */
  function Qids(q: QidArg): (r: seq<string>)
    ensures q.One? ==> r == [q.id]
    ensures q.Many? ==> r == q.ids
  {
    match q
    case One(id) => [id]
    case Many(ids) => ids
  }

  /** The `ids` parameter of the request: the ids joined by "|" (`implode` of
      no ids is ""). */
  function IdsParam(q: QidArg): string
  {
    var ids := Qids(q);
    if ids == [] then "" else Implode('|', ids)
  }

  /** The request names exactly the ids asked for, in order, as long as no id
      contains "|": splitting the parameter at "|" gives them back. */
  lemma IdsParamNamesIds(q: QidArg)
    requires Qids(q) != []
    requires forall i :: 0 <= i < |Qids(q)| ==> '|' !in Qids(q)[i]
    ensures Explode('|', IdsParam(q), |Qids(q)|) == Qids(q)
  {
    ExplodeImplode('|', Qids(q));
  }

  /** The template lookup asks for the template's id alone. */
  lemma TemplateRequest()
    ensures IdsParam(One(Template)) == Template
  {
  }

  /** One decoded entity: its `sitelinks` object (wiki to title), or nothing when
      the entity has none (a missing entity). */
  datatype Entity = Entity(sitelinks: Option<Assoc<string>>)

  /** The `$links` array the closure of `getWikidataLinks` builds: each wiki,
      in order, set to its sitelink title. */
  function LinksOf(sitelinks: Assoc<string>): Assoc<string>
  {
    if sitelinks == [] then []
    else
      var last := sitelinks[|sitelinks| - 1];
      Put(LinksOf(sitelinks[..|sitelinks| - 1]), last.0, last.1)
  }

  /** A JSON object has distinct keys, so the projection is the sitelinks
      object itself: the same wikis in the same order with the same titles. */
  lemma {:induction false} LinksOfDistinct(sitelinks: Assoc<string>)
    requires DistinctKeys(sitelinks)
    ensures LinksOf(sitelinks) == sitelinks
  {
    if sitelinks != [] {
      var n := |sitelinks| - 1;
      var init := sitelinks[..n];
      var last := sitelinks[n];
      DistinctPrefix(sitelinks);
      LinksOfDistinct(init);
      PutFresh(init, last.0, last.1);
      assert sitelinks == init + [last];
    }
  }

  /** Dropping the last entry keeps the keys distinct, and its key is not among the others. */
  lemma DistinctPrefix<V>(a: Assoc<V>)
    requires DistinctKeys(a) && a != []
    ensures DistinctKeys(a[..|a| - 1])
    ensures a[|a| - 1].0 !in Keys(a[..|a| - 1])
  {
    var init := a[..|a| - 1];
    forall i, j | 0 <= i < j < |init| ensures init[i].0 != init[j].0 {
      assert init[i] == a[i] && init[j] == a[j];
    }
    forall i | 0 <= i < |init| ensures Keys(init)[i] != a[|a| - 1].0 {
      assert init[i] == a[i];
    }
  }

  /** Storing a key that is not yet present appends the entry. */
  lemma PutFresh(a: Assoc<string>, k: string, v: string)
    requires k !in Keys(a)
    ensures Put(a, k, v) == a + [(k, v)]
  {
  }

  /** The closure's loop over one entity's sitelinks. */
  method SitelinkTitles(entity: Entity) returns (links: Assoc<string>)
    ensures entity.sitelinks.None? ==> links == []
    ensures entity.sitelinks.Some? ==> links == LinksOf(entity.sitelinks.value)
  {
    links := [];
    if entity.sitelinks.None? {
      return;
    }
    var sitelinks := entity.sitelinks.value;
    var i := 0;
    while i < |sitelinks|
      invariant 0 <= i <= |sitelinks|
      invariant links == LinksOf(sitelinks[..i])
    {
      var (wiki, title) := sitelinks[i];
      assert sitelinks[..i + 1][..i] == sitelinks[..i];
      links := Put(links, wiki, title);
      i := i + 1;
    }
    assert sitelinks[..|sitelinks|] == sitelinks;
  }

  /** The links of one entity, as the closure returns them. */
  function EntityLinks(entity: Entity): Assoc<string>
  {
    if entity.sitelinks.None? then [] else LinksOf(entity.sitelinks.value)
  }

  /** `getWikidataLinks` after the request: nothing for a reply without
      entities, otherwise each entity's links under the entity's own id
      (`array_map` keeps the keys). */
  method WikidataLinks(entities: Option<Assoc<Entity>>) returns (r: Assoc<Assoc<string>>)
    ensures entities.None? || entities.value == [] ==> r == []
    ensures entities.Some? ==> |r| == |entities.value|
    ensures entities.Some? ==>
      forall i :: 0 <= i < |r| ==> r[i] == (entities.value[i].0, EntityLinks(entities.value[i].1))
  {
    r := [];
    if entities.None? {
      return;
    }
    var all := entities.value;
    var i := 0;
    while i < |all|
      invariant 0 <= i <= |all|
      invariant |r| == i
      invariant forall j :: 0 <= j < i ==> r[j] == (all[j].0, EntityLinks(all[j].1))
    {
      var links := SitelinkTitles(all[i].1);
      r := r + [(all[i].0, links)];
      i := i + 1;
    }
  }

  // ---------------------------------------------------------------------------
  // The mirror template's wikis

  /** The check at the top of the script: it dies unless the template's links
      name a non-empty title on the base wiki. */
  function BaseTemplate(templateWikis: Option<Assoc<string>>): (r: Outcome<string>)
    ensures r.Returned? || r == Crashed(BaseTemplateMissing)
    ensures r.Returned? <==> templateWikis.Some? && !Empty(Get(templateWikis.value, BaseWiki))
    ensures r.Returned? ==> templateWikis.Some? && Get(templateWikis.value, BaseWiki) == Some(r.value)
  {
    if templateWikis.None? then Crashed(BaseTemplateMissing)
    else
      var t := Get(templateWikis.value, BaseWiki);
      if Empty(t) then Crashed(BaseTemplateMissing) else Returned(t.value)
  }

  /** As written: `getWikidataLinks(TEMPLATE)[0]`, the entry under key 0. */
  function TemplateWikisAsWritten(links: Assoc<Assoc<string>>): Option<Assoc<string>>
  {
    Get(links, "0")
  }

  /** The entry under the template's own id. */
  function TemplateWikis(links: Assoc<Assoc<string>>): Option<Assoc<string>>
  {
    Get(links, Template)
  }

  /** The reply is keyed by entity ids, which start with a letter, so key 0 is
      never there: as written, the script always dies on the base template check. */
  lemma AsWrittenTemplateLookupDies(links: Assoc<Assoc<string>>)
    requires forall i :: 0 <= i < |links| ==> |links[i].0| > 0 && links[i].0[0] == 'Q'
    ensures TemplateWikisAsWritten(links) == None
    ensures BaseTemplate(TemplateWikisAsWritten(links)) == Crashed(BaseTemplateMissing)
  {
    assert "0" !in Keys(links) by {
      forall i | 0 <= i < |links| ensures Keys(links)[i] != "0" {
        assert links[i].0[0] == 'Q';
      }
    }
  }

  /** Looking the template up under its own id finds the base wiki's template
      whenever the template's entity has a non-empty sitelink there. */
  lemma TemplateLookupFindsBase(entities: Assoc<Entity>, i: nat, title: string)
    requires DistinctKeys(entities) && i < |entities| && entities[i].0 == Template
    requires entities[i].1.sitelinks.Some? && DistinctKeys(entities[i].1.sitelinks.value)
    requires Get(entities[i].1.sitelinks.value, BaseWiki) == Some(title) && !Empty(Some(title))
    ensures forall r: Assoc<Assoc<string>> ::
      (|r| == |entities| && forall j :: 0 <= j < |r| ==> r[j] == (entities[j].0, EntityLinks(entities[j].1))) ==>
      BaseTemplate(TemplateWikis(r)) == Returned(title)
  {
    LinksOfDistinct(entities[i].1.sitelinks.value);
    forall r: Assoc<Assoc<string>> |
      |r| == |entities| && forall j :: 0 <= j < |r| ==> r[j] == (entities[j].0, EntityLinks(entities[j].1))
      ensures BaseTemplate(TemplateWikis(r)) == Returned(title)
    {
      assert DistinctKeys(r) by {
        forall a, b | 0 <= a < b < |r| ensures r[a].0 != r[b].0 {
          assert r[a].0 == entities[a].0 && r[b].0 == entities[b].0;
        }
      }
      GetAt(r, i);
    }
  }

  // ---------------------------------------------------------------------------
  // Choosing what to write

  /** One `writeToPage` call of the main loop: write `content` to `page` on `wiki`. */
  datatype Job = Job(wiki: string, page: string, content: string)

  /** What `loadPageText` on the base wiki yields for a title. */
  function BaseText(baseTexts: map<string, string>, title: string): Option<string>
  {
    Lookup(baseTexts, Replace(title, ' ', '_'))
  }

  /** The writes the main loop makes for one entity's links: none without a
      base link or without base content; otherwise one per other linked wiki. */
  function JobsFor(links: Assoc<string>, baseTexts: map<string, string>): seq<Job>
  {
    var base := Get(links, BaseWiki);
    if Empty(base) then []
    else
      var content := BaseText(baseTexts, base.value);
      if Empty(content) then []
      else WritesTo(Remove(links, BaseWiki), content.value)
  }

  /** One write per remaining link, in order. */
  function WritesTo(links: Assoc<string>, content: string): (r: seq<Job>)
    ensures |r| == |links|
    ensures forall i :: 0 <= i < |r| ==> r[i] == Job(links[i].0, links[i].1, content)
  {
    if links == [] then [] else [Job(links[0].0, links[0].1, content)] + WritesTo(links[1..], content)
  }

  /** All writes of the main loop, entity by entity. */
  function AllJobs(entities: seq<Assoc<string>>, baseTexts: map<string, string>): seq<Job>
  {
    if entities == [] then []
    else
      var last := entities[|entities| - 1];
      AllJobs(entities[..|entities| - 1], baseTexts) + JobsFor(last, baseTexts)
  }

  /** What a single entity yields: no write to the base wiki; a write exactly
      for every other linked wiki, with the base page's text, when the base
      link and its text are both non-empty; nothing otherwise. */
  lemma JobsForExact(links: Assoc<string>, baseTexts: map<string, string>)
    ensures forall j :: j in JobsFor(links, baseTexts) ==> j.wiki != BaseWiki
    ensures var base := Get(links, BaseWiki);
      Empty(base) || Empty(BaseText(baseTexts, base.value)) ==> JobsFor(links, baseTexts) == []
    ensures var base := Get(links, BaseWiki);
      !Empty(base) && !Empty(BaseText(baseTexts, base.value)) ==>
        forall w, p :: Job(w, p, BaseText(baseTexts, base.value).value) in JobsFor(links, baseTexts) <==>
          (w, p) in links && w != BaseWiki
  {
    var base := Get(links, BaseWiki);
    if !Empty(base) && !Empty(BaseText(baseTexts, base.value)) {
      var content := BaseText(baseTexts, base.value).value;
      var rest := Remove(links, BaseWiki);
      forall w, p ensures Job(w, p, content) in JobsFor(links, baseTexts) <==> (w, p) in rest {
        if Job(w, p, content) in WritesTo(rest, content) {
          var i :| 0 <= i < |rest| && WritesTo(rest, content)[i] == Job(w, p, content);
          assert rest[i] == (w, p);
        }
        if (w, p) in rest {
          var i :| 0 <= i < |rest| && rest[i] == (w, p);
          assert WritesTo(rest, content)[i] == Job(w, p, content);
        }
      }
      forall j | j in JobsFor(links, baseTexts) ensures j.wiki != BaseWiki {
        var i :| 0 <= i < |rest| && WritesTo(rest, content)[i] == j;
        assert rest[i] in rest;
      }
    }
  }

  /** Over all entities: the base wiki is never a write target, and every write
      carries non-empty base content. */
  lemma {:induction false} AllJobsSafe(entities: seq<Assoc<string>>, baseTexts: map<string, string>)
    ensures forall j :: j in AllJobs(entities, baseTexts) ==> j.wiki != BaseWiki && !Empty(Some(j.content))
  {
    if entities != [] {
      var init := entities[..|entities| - 1];
      var last := entities[|entities| - 1];
      AllJobsSafe(init, baseTexts);
      JobsForExact(last, baseTexts);
      forall j | j in JobsFor(last, baseTexts) ensures !Empty(Some(j.content)) {
        var base := Get(last, BaseWiki);
        var content := BaseText(baseTexts, base.value).value;
        var rest := Remove(last, BaseWiki);
        var i :| 0 <= i < |rest| && WritesTo(rest, content)[i] == j;
      }
    }
  }

  lemma AllJobsStep(entities: seq<Assoc<string>>, e: nat, baseTexts: map<string, string>)
    requires e < |entities|
    ensures AllJobs(entities[..e + 1], baseTexts) == AllJobs(entities[..e], baseTexts) + JobsFor(entities[e], baseTexts)
  {
    assert entities[..e + 1][..e] == entities[..e];
  }

  /** The main loop: for each entity's links, the writes `ChooseWrites` picks. */
  method SelectTargets(entities: seq<Assoc<string>>, baseTexts: map<string, string>) returns (jobs: seq<Job>)
    ensures jobs == AllJobs(entities, baseTexts)
  {
    jobs := [];
    var e := 0;
    while e < |entities|
      invariant 0 <= e <= |entities|
      invariant jobs == AllJobs(entities[..e], baseTexts)
    {
      AllJobsStep(entities, e, baseTexts);
      var more := ChooseWrites(entities[e], baseTexts);
      jobs := jobs + more;
      e := e + 1;
    }
    assert entities[..|entities|] == entities;
  }

  /** The body of the main loop: skip the entity without a base link or without
      base content, drop the base wiki, and write every other link. */
  method ChooseWrites(links: Assoc<string>, baseTexts: map<string, string>) returns (jobs: seq<Job>)
    ensures jobs == JobsFor(links, baseTexts)
  {
    var base := Get(links, BaseWiki);
    if Empty(base) {
      return [];
    }
    var baseContent := BaseText(baseTexts, base.value);
    if Empty(baseContent) {
      return [];
    }
    var others := Remove(links, BaseWiki);
    jobs := WriteAll(others, baseContent.value);
  }

  /** The inner loop: one write of `content` per link. */
  method WriteAll(links: Assoc<string>, content: string) returns (jobs: seq<Job>)
    ensures jobs == WritesTo(links, content)
  {
    jobs := [];
    var i := 0;
    while i < |links|
      invariant 0 <= i <= |links|
      invariant jobs == WritesTo(links[..i], content)
    {
      var (wiki, pageName) := links[i];
      WritesToAppend(links[..i], links[i], content);
      assert links[..i + 1] == links[..i] + [links[i]];
      jobs := jobs + [Job(wiki, pageName, content)];
      i := i + 1;
    }
    assert links[..|links|] == links;
  }

  lemma WritesToAppend(links: Assoc<string>, last: (string, string), content: string)
    ensures WritesTo(links + [last], content) == WritesTo(links, content) + [Job(last.0, last.1, content)]
  {
    var a := WritesTo(links + [last], content);
    var b := WritesTo(links, content) + [Job(last.0, last.1, content)];
    assert |a| == |b|;
    forall i | 0 <= i < |a| ensures a[i] == b[i] {
      if i < |links| {
        assert (links + [last])[i] == links[i];
      }
    }
  }

  // ---------------------------------------------------------------------------
  // The script's own writeToPage

  /** The script-level `writeToPage($toApi, $pageTo, $content)`: saves whenever
      the loaded text is not the new content, with no template check. */
  function UncheckedWriteStep(k: Conf, s: State, pageTo: string, content: string): (Outcome<()>, State)
  {
    var (oldContent, s1) := LoadTextStep(k, s, pageTo);
    if oldContent == Some(content) then (Returned(()), s1)
    else
      var (saved, s2) := SaveStep(k, s1, content, Summary);
      if saved.Crashed? then (Crashed(saved.message), s2) else (Returned(()), s2)
  }

  /** Loading an existing page on a session that can log in. */
  lemma LoadedForWrite(k: Conf, s: State, pageTo: string)
    requires CanLogIn(k, s) && Replace(pageTo, ' ', '_') in s.texts
    ensures var u := Replace(pageTo, ' ', '_');
      var (text, s1) := LoadTextStep(k, s, pageTo);
      text == Some(s.texts[u]) && s1.revision == Some(u) && s1.texts == s.texts &&
      s1.log == s.log + (LoginCalls(k, s) + [Fetch(u)])
  {
  }

  /** After the load, the script's `writeToPage` saves exactly when the text differs. */
  lemma UncheckedAfterLoad(k: Conf, s: State, pageTo: string, content: string)
    requires CanLogIn(k, s) && Replace(pageTo, ' ', '_') in s.texts
    ensures var u := Replace(pageTo, ' ', '_');
      var s1 := LoadTextStep(k, s, pageTo).1;
      UncheckedWriteStep(k, s, pageTo, content) ==
        if s.texts[u] == content then (Returned(()), s1) else (Returned(()), SaveStep(k, s1, content, Summary).1)
  {
    LoadedForWrite(k, s, pageTo);
  }

  /** On a session that can log in and a page that exists, the script's
      `writeToPage` saves exactly when the text differs, and never asks about
      templates. */
  lemma UncheckedSavesIffChanged(k: Conf, s: State, pageTo: string, content: string)
    requires CanLogIn(k, s)
    requires Replace(pageTo, ' ', '_') in s.texts
    ensures var u := Replace(pageTo, ' ', '_');
      var (r, s1) := UncheckedWriteStep(k, s, pageTo, content);
      r == Returned(()) &&
      Only(s1.log, IsTemplatesQuery) == Only(s.log, IsTemplatesQuery) &&
      Only(s1.log, IsSave) ==
        Only(s.log, IsSave) + (if s.texts[u] != content then [Save(u, content, Summary)] else [])
  {
    var u := Replace(pageTo, ' ', '_');
    var s1 := LoadTextStep(k, s, pageTo).1;
    LoadedForWrite(k, s, pageTo);
    UncheckedAfterLoad(k, s, pageTo, content);
    OnlyIgnores(s.log, LoginCalls(k, s) + [Fetch(u)], IsSave);
    OnlyIgnores(s.log, LoginCalls(k, s) + [Fetch(u)], IsTemplatesQuery);
    if s.texts[u] != content {
      var s2 := SaveStep(k, s1, content, Summary).1;
      assert s2.log == s1.log + [Save(u, content, Summary)];
      OnlyAdds(s1.log, Save(u, content, Summary), IsSave);
      OnlyIgnores(s1.log, [Save(u, content, Summary)], IsTemplatesQuery);
    }
  }

  /** When the login fails, the load returns false, which differs from any
      content, and the save goes to the revision loaded before, if any: the
      previous page gets the new content, or the script dies on a null revision. */
  lemma UncheckedWriteAfterFailedLogin(k: Conf, s: State, pageTo: string, content: string)
    requires !CanLogIn(k, s)
    ensures var (r, s1) := UncheckedWriteStep(k, s, pageTo, content);
      s.revision.None? ==> r == Crashed(NullRevision) && s1.log == s.log + [Login(k.user, k.pass)]
    ensures var (r, s1) := UncheckedWriteStep(k, s, pageTo, content);
      s.revision.Some? ==>
        r == Returned(()) &&
        s1.log == s.log + [Login(k.user, k.pass), Save(s.revision.value, content, Summary)]
  {
  }

  /** The script's `writeToPage` keeps the invariant too. */
  lemma UncheckedKeepsRevisionSession(k: Conf, s: State, pageTo: string, content: string)
    requires RevisionNeedsSession(s)
    ensures RevisionNeedsSession(UncheckedWriteStep(k, s, pageTo, content).1)
  {
    StepsKeepRevisionSession(k, s, pageTo, content, Summary);
    StepsKeepRevisionSession(k, LoadTextStep(k, s, pageTo).1, pageTo, content, Summary);
  }

  /** In any state the steps can reach, a refused login leaves no revision, so
      the script's `writeToPage` saves anyway and dies on the null revision. */
  lemma FailedLoginCrashes(k: Conf, s: State, pageTo: string, content: string)
    requires RevisionNeedsSession(s) && !CanLogIn(k, s)
    ensures var (r, s1) := UncheckedWriteStep(k, s, pageTo, content);
      r == Crashed(NullRevision) && s1.log == s.log + [Login(k.user, k.pass)] && s1.texts == s.texts
  {
    UncheckedWriteAfterFailedLogin(k, s, pageTo, content);
  }

  /** A page that does not exist leaves no revision, and the save dies on it. */
  lemma UncheckedWriteMissingPage(k: Conf, s: State, pageTo: string, content: string)
    requires CanLogIn(k, s) && Replace(pageTo, ' ', '_') !in s.texts
    ensures var (r, s1) := UncheckedWriteStep(k, s, pageTo, content);
      r == Crashed(NullRevision) && NoSave(s, s1)
  {
    var u := Replace(pageTo, ' ', '_');
    var s1 := LoadTextStep(k, s, pageTo).1;
    assert s1.log == s.log + (LoginCalls(k, s) + [Fetch(u)]);
    OnlyIgnores(s.log, LoginCalls(k, s) + [Fetch(u)], IsSave);
  }

  method WriteToPageUnchecked(api: WikiApi, pageTo: string, content: string) returns (r: Outcome<()>)
    modifies api, api.site
    ensures (r, api.Snapshot()) == UncheckedWriteStep(api.Config(), old(api.Snapshot()), pageTo, content)
  {
    var oldContent := api.LoadPageText(pageTo);
    if oldContent != Some(content) {
      var saved := api.SavePage(content, Summary);
      if saved.Crashed? {
        return Crashed(saved.message);
      }
    }
    return Returned(());
  }
}
