/** `getWebserverForWiki`: the host name of a wiki, from its database name
    ("enwiki", "zh_yuewiki", "enwiktionary", ...). Four wikis have fixed hosts;
    otherwise underscores become hyphens and two regular expressions decide.
    The expressions are stated directly over strings, following PCRE's reading:
    `.` matches anything but a newline, and `$` matches at the end of the
    subject or just before a newline that ends it. */
module Hosts {
  import opened Php

  /** The part of the subject that `$` can close: the subject without one final newline. */
  function Core(w: string): (c: string)
    ensures w == c || w == c + "\n"
    ensures w == c + "\n" <==> |w| > 0 && w[|w| - 1] == '\n'
  {
    if |w| > 0 && w[|w| - 1] == '\n' then w[..|w| - 1] else w
  }

  /** `preg_match('/^(.+)wiki$/', $w, $m)`: the first group, if the subject matches. */
  function WikipediaMatch(w: string): (r: Option<string>)
    ensures r.Some? ==> |r.value| >= 1 && '\n' !in r.value && Core(w) == r.value + "wiki"
    ensures r.None? ==> forall x :: |x| >= 1 && '\n' !in x ==> Core(w) != x + "wiki"
  {
    var c := Core(w);
    if |c| >= 5 && c[|c| - 4..] == "wiki" && '\n' !in c[..|c| - 4] then
      assert c == c[..|c| - 4] + "wiki";
      Some(c[..|c| - 4])
    else
      assert forall x :: |x| >= 1 && c == x + "wiki" ==> x == c[..|c| - 4] && c[|c| - 4..] == "wiki";
      None
  }

  /** `wik` starts at `i`, with at least one character before it and one after. */
  predicate WikAt(c: string, i: int)
  {
    1 <= i && i + 3 < |c| && c[i] == 'w' && c[i + 1] == 'i' && c[i + 2] == 'k'
  }

  /** The greedy first group of `(.+)(wik.+)` ends at the last admissible `wik`:
      the largest `i <= hi` with `WikAt(c, i)`. */
  function LastWik(c: string, hi: int): (r: Option<nat>)
    ensures r.Some? ==> r.value <= hi && WikAt(c, r.value)
    ensures r.Some? ==> forall j :: r.value < j <= hi ==> !WikAt(c, j)
    ensures r.None? ==> forall j :: j <= hi ==> !WikAt(c, j)
    decreases hi
  {
    if hi < 1 then None
    else if WikAt(c, hi) then Some(hi)
    else LastWik(c, hi - 1)
  }

  /** `preg_match('/^(.+)(wik.+)$/', $w, $m)`: the two groups, if the subject matches. */
  function SiteMatch(w: string): (r: Option<(string, string)>)
    ensures r.Some? ==> var (a, b) := r.value;
      Core(w) == a + b && '\n' !in Core(w) && WikAt(Core(w), |a|) &&
      forall j :: |a| < j ==> !WikAt(Core(w), j)
    ensures r.Some? ==> var (a, b) := r.value;
      |a| >= 1 && |b| >= 4 && b[0] == 'w' && b[1] == 'i' && b[2] == 'k'
    ensures r.None? ==> '\n' in Core(w) || forall j :: !WikAt(Core(w), j)
  {
    var c := Core(w);
    if '\n' in c then None
    else match LastWik(c, |c| - 4)
      case None => None
      case Some(i) =>
        assert c == c[..i] + c[i..];
        Some((c[..i], c[i..]))
  }

  /** `getWebserverForWiki($wiki)`. */
  function WebserverForWiki(wiki: string): string
  {
    if wiki == "commonswiki" then "commons.wikimedia.org"
    else if wiki == "wikidatawiki" then "www.wikidata.org"
    else if wiki == "specieswiki" then "species.wikimedia.org"
    else if wiki == "mediawikiwiki" then "www.mediawiki.org"
    else
      var w := Replace(wiki, '_', '-');
      match WikipediaMatch(w)
      case Some(lang) => lang + ".wikipedia.org"
      case None =>
        match SiteMatch(w)
        case Some((lang, project)) => lang + "." + project + ".org"
        case None => ""
  }

  ghost predicate Special(wiki: string)
  {
    wiki in {"commonswiki", "wikidatawiki", "specieswiki", "mediawikiwiki"}
  }

  /** A database name ending in "wiki" after something is a Wikipedia, with
      underscores turned into hyphens in its language part. */
  lemma {:induction false} WikipediaRule(lang: string)
    requires |lang| >= 1 && '\n' !in lang && !Special(lang + "wiki")
    ensures WebserverForWiki(lang + "wiki") == Replace(lang, '_', '-') + ".wikipedia.org"
  {
    var w := Replace(lang + "wiki", '_', '-');
    var l := Replace(lang, '_', '-');
    assert w == l + "wiki" by {
      assert |w| == |l + "wiki"|;
      forall i | 0 <= i < |w| ensures w[i] == (l + "wiki")[i] {
        if i < |lang| {
          assert (lang + "wiki")[i] == lang[i];
        } else {
          assert (lang + "wiki")[i] == "wiki"[i - |lang|];
        }
      }
    }
    assert '\n' !in l by {
      forall i | 0 <= i < |l| ensures l[i] != '\n' {
        assert lang[i] in lang;
      }
    }
    assert Core(w) == w;
    assert w[|w| - 4..] == "wiki";
    assert w[..|w| - 4] == l;
  }

  /** Any other name whose hyphenated form contains "wik" after its first character
      and before its last one (and no newline) is split at the last such "wik":
      the host is the part before it, ".", the part from it on, ".org". */
  lemma SiteRule(wiki: string, lang: string, project: string)
    requires !Special(wiki)
    requires WikipediaMatch(Replace(wiki, '_', '-')).None?
    requires SiteMatch(Replace(wiki, '_', '-')) == Some((lang, project))
    ensures WebserverForWiki(wiki) == lang + "." + project + ".org"
    ensures |lang| >= 1 && |project| >= 4 && project[0] == 'w' && project[1] == 'i' && project[2] == 'k'
  {
  }

  /** The fixed hosts. */
  lemma FixedHosts()
    ensures WebserverForWiki("commonswiki") == "commons.wikimedia.org"
    ensures WebserverForWiki("wikidatawiki") == "www.wikidata.org"
    ensures WebserverForWiki("specieswiki") == "species.wikimedia.org"
    ensures WebserverForWiki("mediawikiwiki") == "www.mediawiki.org"
  {
  }

  lemma ZhYueLanguage()
    ensures Replace("zh_yue", '_', '-') == "zh-yue"
  {
  }

  /** "zh_yuewiki" is served by "zh-yue.wikipedia.org". */
  lemma ZhYueExample()
    ensures WebserverForWiki("zh_yue" + "wiki") == "zh-yue" + ".wikipedia.org"
  {
    ZhYueLanguage();
    assert |"zh_yue" + "wiki"| == 10;
    WikipediaRule("zh_yue");
  }

  lemma WiktionaryHyphenated()
    ensures Replace("enwiktionary", '_', '-') == "enwiktionary"
  {
    ReplaceAbsent("enwiktionary", '_', '-');
  }
  lemma WiktionaryNotSpecial()
    ensures !Special("enwiktionary")
  {
  }
  lemma WiktionaryNotWikipedia()
    ensures WikipediaMatch("enwiktionary").None?
  {
  }

  lemma WiktionarySplit()
    ensures SiteMatch("enwiktionary") == Some(("en", "wiktionary"))
  {
    var c := "enwiktionary";
    assert Core(c) == c && '\n' !in c;
    assert LastWik(c, 8) == Some(2) by {
      assert WikAt(c, 2);
      assert c[3] == 'i' && c[4] == 'k' && c[5] == 't' && c[6] == 'i' && c[7] == 'o' && c[8] == 'n';
    }
    assert c[..2] == "en" && c[2..] == "wiktionary";
  }

  lemma WiktionaryHost() ensures "en" + "." + "wiktionary" + ".org" == "en.wiktionary.org" {}

  /** "enwiktionary" is served by "en.wiktionary.org". */
  lemma WiktionaryExample()
    ensures WebserverForWiki("enwiktionary") == "en.wiktionary.org"
  {
    WiktionaryHyphenated();
    WiktionaryNotSpecial();
    WiktionaryNotWikipedia();
    WiktionarySplit();
    SiteRule("enwiktionary", "en", "wiktionary");
    WiktionaryHost();
  }

  lemma BareWikiUnchanged()
    ensures Replace("wiki", '_', '-') == "wiki"
  {
    ReplaceAbsent("wiki", '_', '-');
  }

  lemma BareWikiNoMatch()
    ensures WikipediaMatch("wiki").None? && SiteMatch("wiki").None?
  {
    assert Core("wiki") == "wiki";
    assert LastWik("wiki", 0).None?;
  }

  /** A name that is not special and matches neither expression has the empty host. */
  lemma NoMatchRule(wiki: string)
    requires !Special(wiki)
    requires WikipediaMatch(Replace(wiki, '_', '-')).None? && SiteMatch(Replace(wiki, '_', '-')).None?
    ensures WebserverForWiki(wiki) == ""
  {
  }

  /** "wiki" matches neither expression, so its host is the empty string. */
  lemma BareWikiExample()
    ensures WebserverForWiki("wiki") == ""
  {
    BareWikiUnchanged();
    BareWikiNoMatch();
    NoMatchRule("wiki");
  }
}
