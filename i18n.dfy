/**
 * Language detection and routing: the supported languages, the reading of an
 * Accept-Language header, the language prefix of a URL path, and the
 * rewriting of a path into its English or French form.
 */
module I18n {
  import opened Wrappers
  import opened Strings

  /** `SupportedLanguage`: English, the default, and French. */
  datatype Lang = En | Fr

  /** The two-letter code that stands for a language in paths, tables and headers. */
  function Code(l: Lang): (c: string)
    ensures |c| == 2 && '/' !in c && '.' !in c
  {
    match l
    case En => "en"
    case Fr => "fr"
  }

  /** The supported language whose code is exactly `s`. */
  function FromCode(s: string): (r: Option<Lang>)
    ensures r.Some? <==> s == "en" || s == "fr"
    ensures r.Some? ==> Code(r.value) == s
  {
    if s == "en" then Some(En) else if s == "fr" then Some(Fr) else None
  }

  // ---------------------------------------------------------------------
  // Accept-Language (detectLanguageFromHeader)
  // ---------------------------------------------------------------------

  /** One entry of the header once parsed: its lower-cased locale and its quality. */
  datatype LangPref = LangPref(locale: string, quality: real)

  /**
   * One comma-separated entry: trimmed, cut at the first `;q=`; the locale is
   * lower-cased, and a missing or empty quality counts as 1.0. Turning the
   * quality text into a number is `parseQuality`'s business.
   */
  function ParsePref(raw: string, parseQuality: string -> real): (p: LangPref)
    ensures IndexOf(Trim(raw), ";q=").None? ==> p.quality == 1.0 && p.locale == Lower(Trim(raw))
    ensures forall i :: 0 <= i < |p.locale| ==> !('A' <= p.locale[i] <= 'Z')
  {
    var entry := Trim(raw);
    var quality := match After(entry, ";q=") case Some(rest) => Before(rest, ";q=") case None => "";
    var locale := Lower(Before(entry, ";q="));
    assert forall i :: 0 <= i < |locale| ==> !('A' <= locale[i] <= 'Z');
    LangPref(locale, if quality != "" then parseQuality(quality) else 1.0)
  }

  /**
   * An entry `loc;q=q` (once trimmed) has locale `loc` lower-cased, and quality
   * `parseQuality(q)`, or 1.0 when `q` is empty; nothing else in the entry is
   * trimmed, so a space before `;q=` stays in the locale.
   */
  lemma ParsePrefWithQuality(raw: string, parseQuality: string -> real, loc: string, q: string)
    requires Trim(raw) == loc + ";q=" + q
    requires forall j :: !OccursAt(loc, ";q=", j)
    requires forall j :: !OccursAt(q, ";q=", j)
    ensures ParsePref(raw, parseQuality) == LangPref(Lower(loc), if q == "" then 1.0 else parseQuality(q))
  {
    var e := Trim(raw);
    FirstQualityMark(e, loc, q);
    assert e[..|loc|] == loc && e[|loc| + 3..] == q;
    assert IndexOf(q, ";q=").None?;
  }

  /** `;q=` cannot overlap itself, so the one right after `loc` is the first. */
  lemma FirstQualityMark(e: string, loc: string, q: string)
    requires e == loc + ";q=" + q
    requires forall j :: !OccursAt(loc, ";q=", j)
    ensures IndexOf(e, ";q=") == Some(|loc|)
  {
    var n := |loc|;
    assert e[..n] == loc && e[n] == ';';
    assert e[n..n + 3] == ";q=";
    forall j | 0 <= j < n ensures !OccursAt(e, ";q=", j) {
      if j + 3 <= n {
        assert e[j..j + 3] == loc[j..j + 3];
        assert !OccursAt(loc, ";q=", j);
      } else if j == n - 1 {
        assert e[j..j + 3][1] == e[n] != ";q="[1];
      } else {
        assert e[j..j + 3][2] == e[n] != ";q="[2];
      }
    }
    FirstOccurrence(e, ";q=", n);
  }

  /** A string with no `;` holds no `;q=`. */
  lemma NoSemicolonNoQuality(s: string)
    requires ';' !in s
    ensures forall j :: !OccursAt(s, ";q=", j)
  {
    forall j ensures !OccursAt(s, ";q=", j) {
      if 0 <= j && j + 3 <= |s| {
        assert s[j..j + 3][0] == s[j] && s[j] in s;
      }
    }
  }

  /** Lower-casing a string without upper-case letters changes nothing. */
  lemma LowerOfLower(s: string)
    requires forall i :: 0 <= i < |s| ==> !('A' <= s[i] <= 'Z')
    ensures Lower(s) == s
  {
  }

  /** A language code followed by a space: no `;q=`, nothing to lower-case, and no recognised locale. */
  lemma SpacedCode(l: Lang)
    ensures forall j :: !OccursAt(Code(l) + " ", ";q=", j)
    ensures Lower(Code(l) + " ") == Code(l) + " "
    ensures !IsFrenchLocale(Code(l) + " ") && !IsEnglishLocale(Code(l) + " ")
  {
    var loc := Code(l) + " ";
    assert loc == [Code(l)[0], Code(l)[1], ' '];
    NoSemicolonNoQuality(loc);
    LowerOfLower(loc);
    assert loc[2] == ' ';
  }

  /** `fr ;q=0.5` and the like: the space kept before `;q=` makes the locale unrecognised. */
  lemma SpacedCodeUnrecognised(raw: string, parseQuality: string -> real, l: Lang, q: string)
    requires Trim(raw) == Code(l) + " ;q=" + q
    requires forall j :: !OccursAt(q, ";q=", j)
    ensures ParsePref(raw, parseQuality).locale == Code(l) + " "
    ensures !Recognised(ParsePref(raw, parseQuality))
  {
    var loc := Code(l) + " ";
    assert Trim(raw) == loc + ";q=" + q;
    SpacedCode(l);
    ParsePrefWithQuality(raw, parseQuality, loc, q);
    assert ParsePref(raw, parseQuality).locale == loc;
  }

  /** The entries of a header, one per comma-separated piece, in header order. */
  function ParseHeader(header: string, parseQuality: string -> real): (prefs: seq<LangPref>)
    ensures |prefs| == |Split(header, ',')|
    ensures forall i :: 0 <= i < |prefs| ==> prefs[i] == ParsePref(Split(header, ',')[i], parseQuality)
  {
    var pieces := Split(header, ',');
    seq(|pieces|, i requires 0 <= i < |pieces| => ParsePref(pieces[i], parseQuality))
  }

  /** Entries in non-increasing order of quality. */
  ghost predicate ByQuality(s: seq<LangPref>)
  {
    forall i, j :: 0 <= i < j < |s| ==> s[i].quality >= s[j].quality
  }

  /** Places `x` in front of the first entry whose quality is not higher than its own. */
  function InsertByQuality(x: LangPref, s: seq<LangPref>): (r: seq<LangPref>)
    requires ByQuality(s)
    ensures ByQuality(r)
    ensures multiset(r) == multiset(s) + multiset{x}
    ensures |r| == |s| + 1 && (r[0] == x || (s != [] && r[0] == s[0]))
  {
    if s == [] || s[0].quality <= x.quality then [x] + s
    else
      var t := InsertByQuality(x, s[1..]);
      ConsByQuality(s[0], t);
      assert s == [s[0]] + s[1..];
      [s[0]] + t
  }

  /** An entry at least as good as the head of an ordered list keeps it ordered when put in front. */
  lemma ConsByQuality(a: LangPref, t: seq<LangPref>)
    requires ByQuality(t) && (t == [] || t[0].quality <= a.quality)
    ensures ByQuality([a] + t)
  {
    var r := [a] + t;
    forall i, j | 0 <= i < j < |r| ensures r[i].quality >= r[j].quality {
      assert r[j] == t[j - 1];
      if i > 0 {
        assert r[i] == t[i - 1];
      } else {
        assert t[0].quality >= t[j - 1].quality;
      }
    }
  }

  /**
   * `.sort((a, b) => b.quality - a.quality)`: highest quality first, and entries
   * of equal quality kept in header order, as the stable built-in sort does.
   */
  function SortByQuality(s: seq<LangPref>): (r: seq<LangPref>)
    ensures ByQuality(r)
    ensures multiset(r) == multiset(s)
  {
    if s == [] then []
    else
      assert s == [s[0]] + s[1..];
      InsertByQuality(s[0], SortByQuality(s[1..]))
  }

  /** The French locales the detector accepts; other `fr-*` variants are not among them. */
  predicate IsFrenchLocale(locale: string)
  {
    locale == "fr" || locale == "fr-ca" || locale == "fr-fr"
  }

  /** The English locales: `en` and every `en-*`. */
  predicate IsEnglishLocale(locale: string)
  {
    locale == "en" || StartsWith(locale, "en-")
  }

  /** No locale is both French and English, so the order of the two tests does not matter. */
  lemma LocaleTestsDisjoint(locale: string)
    ensures !(IsFrenchLocale(locale) && IsEnglishLocale(locale))
  {
    if IsFrenchLocale(locale) && |locale| >= 3 {
      assert locale[..3][0] == 'f';
    }
  }

  /** An entry the detector stops at. */
  predicate Recognised(p: LangPref)
  {
    IsFrenchLocale(p.locale) || IsEnglishLocale(p.locale)
  }

  /** The search of lines 30-37: the first entry naming French or English. */
  function FirstRecognised(prefs: seq<LangPref>): (r: Option<LangPref>)
    ensures r.Some? ==> Recognised(r.value) && r.value in prefs
    ensures r.Some? ==> exists i :: 0 <= i < |prefs| && prefs[i] == r.value && NoneRecognisedBefore(prefs, i)
    ensures r.None? ==> forall i :: 0 <= i < |prefs| ==> !Recognised(prefs[i])
  {
    if prefs == [] then None
    else if Recognised(prefs[0]) then
      assert NoneRecognisedBefore(prefs, 0);
      Some(prefs[0])
    else
      var r := FirstRecognised(prefs[1..]);
      assert forall i :: 0 <= i < |prefs| - 1 && NoneRecognisedBefore(prefs[1..], i) ==> NoneRecognisedBefore(prefs, i + 1);
      r
  }

  /** No entry before position `i` is recognised. */
  predicate NoneRecognisedBefore(prefs: seq<LangPref>, i: int)
  {
    forall j :: 0 <= j < i && j < |prefs| ==> !Recognised(prefs[j])
  }

  /** `detectLanguageFromHeader`: English unless the preferred recognised entry is French. */
  function DetectLanguageFromHeader(header: Option<string>, parseQuality: string -> real): (r: Lang)
    ensures r == Fr ==> header.Some? && exists p :: p in ParseHeader(header.value, parseQuality) && IsFrenchLocale(p.locale)
  {
    match header
    case None => En
    case Some(h) =>
      if h == "" then En
      else
        var prefs := ParseHeader(h, parseQuality);
        match FirstRecognised(SortByQuality(prefs))
        case Some(p) =>
          assert p in SortByQuality(prefs);
          assert p in multiset(SortByQuality(prefs)) && multiset(SortByQuality(prefs)) == multiset(prefs);
          if IsFrenchLocale(p.locale) then Fr else En
        case None => En
  }

  /**
   * Entry `i` is the one a reader of the header picks: recognised, of the
   * highest quality among recognised entries, and the earliest among those.
   */
  ghost predicate IsBest(prefs: seq<LangPref>, i: int)
  {
    && 0 <= i < |prefs|
    && Recognised(prefs[i])
    && forall j :: 0 <= j < |prefs| && Recognised(prefs[j]) ==>
         prefs[j].quality < prefs[i].quality || (prefs[j].quality == prefs[i].quality && i <= j)
  }

  /** The best recognised entry computed front to back: ties go to the earlier entry. */
  function BestOf(prefs: seq<LangPref>): Option<LangPref>
  {
    if prefs == [] then None
    else
      var rest := BestOf(prefs[1..]);
      if Recognised(prefs[0]) && (rest.None? || rest.value.quality <= prefs[0].quality) then Some(prefs[0])
      else rest
  }

  /** At most one entry is the best. */
  lemma BestIsUnique(prefs: seq<LangPref>, i: int, j: int)
    requires IsBest(prefs, i) && IsBest(prefs, j)
    ensures i == j
  {
  }

  /** `BestOf` finds exactly the entry `IsBest` describes. */
  lemma {:induction false} BestOfIsBest(prefs: seq<LangPref>)
    ensures BestOf(prefs).None? <==> forall i :: 0 <= i < |prefs| ==> !Recognised(prefs[i])
    ensures BestOf(prefs).Some? ==> exists i :: IsBest(prefs, i) && prefs[i] == BestOf(prefs).value
  {
    if prefs != [] {
      var x, r := prefs[0], prefs[1..];
      BestOfIsBest(r);
      var rest := BestOf(r);
      assert forall j :: 1 <= j < |prefs| ==> prefs[j] == r[j - 1];
      if Recognised(x) && (rest.None? || rest.value.quality <= x.quality) {
        if rest.Some? {
          var k :| IsBest(r, k) && r[k] == rest.value;
          assert IsBest(prefs, 0) by {
            forall j | 0 <= j < |prefs| && Recognised(prefs[j])
              ensures prefs[j].quality < x.quality || (prefs[j].quality == x.quality && 0 <= j)
            {
              if j > 0 {
                assert Recognised(r[j - 1]);
              }
            }
          }
        } else {
          assert IsBest(prefs, 0);
        }
      } else if rest.Some? {
        var k :| IsBest(r, k) && r[k] == rest.value;
        assert IsBest(prefs, k + 1) by {
          forall j | 0 <= j < |prefs| && Recognised(prefs[j])
            ensures prefs[j].quality < prefs[k + 1].quality
                    || (prefs[j].quality == prefs[k + 1].quality && k + 1 <= j)
          {
            if j > 0 {
              assert Recognised(r[j - 1]);
            }
          }
        }
      } else {
        forall i | 0 <= i < |prefs| ensures !Recognised(prefs[i]) {
          if i > 0 {
            assert prefs[i] == r[i - 1];
          }
        }
      }
    }
  }

  /** The first recognised entry of a quality-ordered list never has more quality than its head. */
  lemma FirstRecognisedBelowHead(t: seq<LangPref>)
    requires ByQuality(t) && FirstRecognised(t).Some?
    ensures FirstRecognised(t).value.quality <= t[0].quality
  {
    var w := FirstRecognised(t).value;
    var k :| 0 <= k < |t| && t[k] == w;
  }

  /** Inserting into a quality-ordered list changes its first recognised entry only in `x`'s favour. */
  lemma {:induction false} FirstRecognisedOfInsert(x: LangPref, t: seq<LangPref>)
    requires ByQuality(t)
    ensures FirstRecognised(InsertByQuality(x, t))
         == if Recognised(x) && (FirstRecognised(t).None? || FirstRecognised(t).value.quality <= x.quality)
            then Some(x) else FirstRecognised(t)
  {
    if t == [] || t[0].quality <= x.quality {
      assert ([x] + t)[1..] == t;
      if FirstRecognised(t).Some? {
        FirstRecognisedBelowHead(t);
      }
    } else {
      var r := [t[0]] + InsertByQuality(x, t[1..]);
      assert r[1..] == InsertByQuality(x, t[1..]);
      FirstRecognisedOfInsert(x, t[1..]);
    }
  }

  /** Sorting by quality and taking the first recognised entry yields the best entry. */
  lemma {:induction false} FirstRecognisedOfSort(s: seq<LangPref>)
    ensures FirstRecognised(SortByQuality(s)) == BestOf(s)
  {
    if s != [] {
      FirstRecognisedOfSort(s[1..]);
      FirstRecognisedOfInsert(s[0], SortByQuality(s[1..]));
    }
  }

  /**
   * The detector answers French exactly when the best recognised entry of the
   * header (highest quality, earliest on ties) is one of the French locales.
   */
  lemma DetectChoosesBest(header: string, parseQuality: string -> real)
    requires header != ""
    ensures var prefs := ParseHeader(header, parseQuality);
            DetectLanguageFromHeader(Some(header), parseQuality) == Fr
            <==> exists i :: IsBest(prefs, i) && IsFrenchLocale(prefs[i].locale)
  {
    var prefs := ParseHeader(header, parseQuality);
    FirstRecognisedOfSort(prefs);
    BestOfIsBest(prefs);
    if exists i :: IsBest(prefs, i) && IsFrenchLocale(prefs[i].locale) {
      var i :| IsBest(prefs, i) && IsFrenchLocale(prefs[i].locale);
      var k :| IsBest(prefs, k) && prefs[k] == BestOf(prefs).value;
      BestIsUnique(prefs, i, k);
    }
  }

  /**
   * Qualities never rule an entry out: a header whose recognised entries are
   * all French gives French, even when their quality is 0.
   */
  lemma OnlyFrenchRecognised(header: string, parseQuality: string -> real)
    requires header != ""
    requires exists i :: 0 <= i < |ParseHeader(header, parseQuality)|
                         && IsFrenchLocale(ParseHeader(header, parseQuality)[i].locale)
    requires forall i :: 0 <= i < |ParseHeader(header, parseQuality)|
                         && Recognised(ParseHeader(header, parseQuality)[i])
                         ==> IsFrenchLocale(ParseHeader(header, parseQuality)[i].locale)
    ensures DetectLanguageFromHeader(Some(header), parseQuality) == Fr
  {
    var prefs := ParseHeader(header, parseQuality);
    FirstRecognisedOfSort(prefs);
    BestOfIsBest(prefs);
    var k :| IsBest(prefs, k) && prefs[k] == BestOf(prefs).value;
  }

  /** No header, or an empty one, means English. */
  lemma MissingHeaderIsEnglish(parseQuality: string -> real)
    ensures DetectLanguageFromHeader(None, parseQuality) == En
    ensures DetectLanguageFromHeader(Some(""), parseQuality) == En
  {
  }

  // ---------------------------------------------------------------------
  // Paths
  // ---------------------------------------------------------------------

  /** `pathname.split('/').filter(Boolean)`: the non-empty path segments. */
  function PathSegments(p: string): (segs: seq<string>)
    ensures forall i :: 0 <= i < |segs| ==> segs[i] != "" && '/' !in segs[i]
  {
    NonEmpty(Split(p, '/'))
  }

  /** `getLanguageFromPath`: the first segment, when it is a language code. */
  function LanguageFromPath(p: string): (r: Option<Lang>)
    ensures r.Some? ==> |PathSegments(p)| > 0 && PathSegments(p)[0] == Code(r.value)
    ensures r.None? ==> |PathSegments(p)| == 0 || (PathSegments(p)[0] != "en" && PathSegments(p)[0] != "fr")
  {
    var segs := PathSegments(p);
    if |segs| > 0 then FromCode(segs[0]) else None
  }

  /** `getCurrentLanguage`: the path's language, English by default. */
  function CurrentLanguage(p: string): (r: Lang)
    ensures LanguageFromPath(p).Some? ==> r == LanguageFromPath(p).value
    ensures LanguageFromPath(p).None? ==> r == En
  {
    LanguageFromPath(p).GetOr(En)
  }

  /** `isLanguagePath`. */
  predicate IsLanguagePath(p: string)
    ensures IsLanguagePath(p) ==> |PathSegments(p)| > 0 && FromCode(PathSegments(p)[0]).Some?
    ensures !IsLanguagePath(p) ==> CurrentLanguage(p) == En
  {
    LanguageFromPath(p).Some?
  }

  /** After any leading slashes, `p` begins with `w` followed by a slash or the end. */
  predicate LeadsWith(p: string, w: string)
  {
    if p != [] && p[0] == '/' then LeadsWith(p[1..], w)
    else StartsWith(p, w) && (|p| == |w| || p[|w|] == '/')
  }

  /** The first piece of a split is `w` exactly when `p` starts with `w` and a separator or the end. */
  lemma {:induction false} FirstPiece(p: string, c: char, w: string)
    requires c !in w
    ensures Split(p, c)[0] == w <==> StartsWith(p, w) && (|p| == |w| || p[|w|] == c)
  {
    if p != [] && p[0] != c && w != [] {
      FirstPiece(p[1..], c, w[1..]);
      if w != [] && w[0] == p[0] {
        assert StartsWith(p, w) <==> StartsWith(p[1..], w[1..]) by {
          if |w| <= |p| {
            assert p[..|w|] == [p[0]] + p[1..][..|w| - 1];
            assert w == [w[0]] + w[1..];
          }
        }
      }
    }
  }

  /** Leading slashes do not change the segments. */
  lemma SegmentsAfterSlash(p: string)
    requires p != [] && p[0] == '/'
    ensures PathSegments(p) == PathSegments(p[1..])
  {
    assert Split(p, '/') == [""] + Split(p[1..], '/');
    assert ([""] + Split(p[1..], '/'))[1..] == Split(p[1..], '/');
  }

  /** `getLanguageFromPath` finds `l` exactly when the path leads with the segment `Code(l)`. */
  lemma {:induction false} LanguageFromPathLeads(p: string, l: Lang)
    ensures LanguageFromPath(p) == Some(l) <==> LeadsWith(p, Code(l))
  {
    if p == [] {
    } else if p[0] == '/' {
      SegmentsAfterSlash(p);
      LanguageFromPathLeads(p[1..], l);
    } else {
      var pieces := Split(p, '/');
      FirstPiece(p, '/', Code(l));
      FirstPiece(p, '/', "");
      assert pieces[0] != "";
      assert pieces == [pieces[0]] + pieces[1..];
      assert PathSegments(p)[0] == pieces[0];
    }
  }

  /** `isLanguagePath` holds exactly when the path leads with the segment `en` or `fr`. */
  lemma IsLanguagePathLeads(p: string)
    ensures IsLanguagePath(p) <==> LeadsWith(p, "en") || LeadsWith(p, "fr")
  {
    LanguageFromPathLeads(p, En);
    LanguageFromPathLeads(p, Fr);
  }

  /** `getCurrentLanguage` is French exactly when the path leads with the segment `fr`, and English otherwise. */
  lemma CurrentLanguageLeads(p: string)
    ensures CurrentLanguage(p) == Fr <==> LeadsWith(p, "fr")
    ensures CurrentLanguage(p) == En <==> !LeadsWith(p, "fr")
  {
    LanguageFromPathLeads(p, Fr);
  }

  // ---------------------------------------------------------------------
  // getLocalizedPath
  // ---------------------------------------------------------------------

  /** `path.replace(/^\/(en|fr)/, '') || '/'`: a purely textual strip, never empty. */
  function StripLanguagePrefix(p: string): (r: string)
    ensures r != ""
    ensures StartsWith(p, "/en") || StartsWith(p, "/fr") ==> r == (if |p| == 3 then "/" else p[3..])
    ensures !(StartsWith(p, "/en") || StartsWith(p, "/fr")) ==> r == (if p == "" then "/" else p)
  {
    var rest := if StartsWith(p, "/en") || StartsWith(p, "/fr") then p[3..] else p;
    if rest == "" then "/" else rest
  }

  /** English route -> French route. */
  const FrenchRoutes: map<string, string> :=
    map["/about" := "/a-propos", "/partnerships" := "/partenariats", "/blog" := "/blogue", "/volunteer" := "/benevole"]

  /** French route -> English route. */
  const EnglishRoutes: map<string, string> :=
    map["/a-propos" := "/about", "/partenariats" := "/partnerships", "/blogue" := "/blog", "/benevole" := "/volunteer"]

  /**
   * `routes[path] || path` over the table's own keys: every route in the
   * tables is non-empty, so a hit is always used. Properties that a plain
   * object inherits, such as `constructor`, are not keys here.
   */
  function RouteOr(routes: map<string, string>, path: string): (r: string)
    ensures r == path || r in routes.Values
    ensures path in routes ==> r == routes[path]
    ensures path !in routes ==> r == path
  {
    if path in routes then routes[path] else path
  }

  /** The table consulted for a target language. */
  function RoutesFor(l: Lang): (r: map<string, string>)
    ensures forall k | k in r :: r[k] != "" && r[k][0] == '/'
  {
    match l
    case Fr => FrenchRoutes
    case En => EnglishRoutes
  }

  /** `getLocalizedPath`: the stripped path, translated for `l`, under the prefix `/` + code. */
  function GetLocalizedPath(p: string, l: Lang): (r: string)
    ensures StartsWith(r, "/" + Code(l)) && |r| > 3
  {
    "/" + Code(l) + RouteOr(RoutesFor(l), StripLanguagePrefix(p))
  }

  /** The English table is the French one read backwards, and no route is a key of the table it came out of. */
  lemma RouteTablesInverse()
    ensures forall r :: r in FrenchRoutes ==> FrenchRoutes[r] in EnglishRoutes && EnglishRoutes[FrenchRoutes[r]] == r
    ensures forall r :: r in EnglishRoutes ==> EnglishRoutes[r] in FrenchRoutes && FrenchRoutes[EnglishRoutes[r]] == r
    ensures FrenchRoutes.Keys !! EnglishRoutes.Keys
  {
  }

  /** Stripping undoes the prefix `getLocalizedPath` adds. */
  lemma StripAddedPrefix(l: Lang, rest: string)
    requires rest != ""
    ensures StripLanguagePrefix("/" + Code(l) + rest) == rest
  {
    var p := "/" + Code(l) + rest;
    assert p[..3] == "/" + Code(l);
    assert p[3..] == rest;
  }

  /** Translating a route, then translating the outcome for `b`, is translating for `b` directly. */
  lemma RouteOrTwice(a: Lang, b: Lang, clean: string)
    ensures RouteOr(RoutesFor(b), RouteOr(RoutesFor(a), clean)) == RouteOr(RoutesFor(b), clean)
  {
    RouteTablesInverse();
  }

  /** Localising an already localised path: only the last language matters. */
  lemma LastLocalizationWins(p: string, a: Lang, b: Lang)
    ensures GetLocalizedPath(GetLocalizedPath(p, a), b) == GetLocalizedPath(p, b)
  {
    var clean := StripLanguagePrefix(p);
    var mid := RouteOr(RoutesFor(a), clean);
    assert mid != "";
    StripAddedPrefix(a, mid);
    RouteOrTwice(a, b, clean);
  }

  /** Localising twice for the same language changes nothing more. */
  lemma LocalizedPathIdempotent(p: string, l: Lang)
    ensures GetLocalizedPath(GetLocalizedPath(p, l), l) == GetLocalizedPath(p, l)
  {
    LastLocalizationWins(p, l, l);
  }

  /** A mapped route sent to French and back to English is the English route under `/en`. */
  lemma MappedRouteRoundTrip(r: string)
    requires r in FrenchRoutes
    ensures GetLocalizedPath(GetLocalizedPath(r, Fr), En) == "/en" + r
  {
    LastLocalizationWins(r, Fr, En);
    FrenchRouteShapes();
    EnglishPathOf(r);
  }

  /** An unprefixed path that is no French route name is sent to English under `/en` unchanged. */
  lemma EnglishPathOf(r: string)
    requires |r| >= 3 && r[1] != 'e' && r[1] != 'f' && r !in EnglishRoutes
    ensures GetLocalizedPath(r, En) == "/en" + r
  {
    StripUnprefixed(r);
    assert "/" + Code(En) == "/en";
  }

  /**
   * The English routes that have a French name carry no language prefix of
   * their own and are not French route names.
   */
  lemma FrenchRouteShapes()
    ensures forall r | r in FrenchRoutes :: |r| >= 3 && r[1] != 'e' && r[1] != 'f' && r !in EnglishRoutes
  {
  }

  /** A path without a language prefix is left as it is by the strip. */
  lemma StripUnprefixed(p: string)
    requires |p| >= 3 && p[1] != 'e' && p[1] != 'f'
    ensures StripLanguagePrefix(p) == p
  {
    assert p[..3][1] == p[1];
  }

  /** `getLocalizedPath` put together from its strip and its route lookup. */
  lemma LocalizedPathOf(p: string, l: Lang, clean: string, routed: string)
    requires StripLanguagePrefix(p) == clean && RouteOr(RoutesFor(l), clean) == routed
    ensures GetLocalizedPath(p, l) == "/" + Code(l) + routed
  {
  }

  /** A cleaned path the target's table does not map passes through under the target's prefix. */
  lemma UnmappedPassesThrough(p: string, l: Lang)
    requires StripLanguagePrefix(p) !in RoutesFor(l)
    ensures GetLocalizedPath(p, l) == "/" + Code(l) + StripLanguagePrefix(p)
  {
  }

  /** A non-empty path without a language prefix that the table does not map is kept as it is. */
  lemma UnprefixedPassesThrough(p: string, l: Lang)
    requires p != "" && !StartsWith(p, "/en") && !StartsWith(p, "/fr") && p !in RoutesFor(l)
    ensures GetLocalizedPath(p, l) == "/" + Code(l) + p
  {
    UnmappedPassesThrough(p, l);
  }

  /** The home page and unmapped pages such as `/events` and `/faq` pass through. */
  lemma PassThroughExamples()
    ensures GetLocalizedPath("/", Fr) == "/fr/"
    ensures GetLocalizedPath("/events", Fr) == "/fr/events"
    ensures GetLocalizedPath("/faq", En) == "/en/faq"
  {
    assert "/"[..1] == "/";
    UnprefixedPassesThrough("/", Fr);
    assert "/events"[..3] == "/ev";
    UnprefixedPassesThrough("/events", Fr);
    assert "/faq"[..3] == "/fa";
    UnprefixedPassesThrough("/faq", En);
  }

  /** An unprefixed English route with a French name is sent to French under `/fr` by that name. */
  lemma MappedToFrench(r: string, routed: string)
    requires |r| >= 3 && r[1] != 'e' && r[1] != 'f'
    requires r in FrenchRoutes && FrenchRoutes[r] == routed
    ensures GetLocalizedPath(r, Fr) == "/fr" + routed
  {
    StripUnprefixed(r);
    LocalizedPathOf(r, Fr, r, routed);
  }

  /** The blog route of the end-to-end test and the about page, sent to French. */
  lemma FrenchRouteExamples()
    ensures GetLocalizedPath("/blog", Fr) == "/fr/blogue"
    ensures GetLocalizedPath("/about", Fr) == "/fr/a-propos"
  {
    assert "/blog"[1] == 'b' && "/about"[1] == 'a';
    MappedToFrench("/blog", "/blogue");
    MappedToFrench("/about", "/a-propos");
    assert "/fr" + "/blogue" == "/fr/blogue" && "/fr" + "/a-propos" == "/fr/a-propos";
  }

  /** The French blog route of the end-to-end test, sent back to English. */
  lemma BlogRouteToEnglish()
    ensures GetLocalizedPath("/fr/blogue", En) == "/en/blog"
  {
    assert StripLanguagePrefix("/fr/blogue") == "/blogue" by {
      assert "/fr/blogue"[..3] == "/fr";
      assert "/fr/blogue"[3..] == "/blogue";
    }
    assert EnglishRoutes["/blogue"] == "/blog";
    LocalizedPathOf("/fr/blogue", En, "/blogue", "/blog");
  }

  /** An unmapped route keeps its name. */
  lemma ContactExample()
    ensures GetLocalizedPath("/contact", Fr) == "/fr/contact"
  {
    StripUnprefixed("/contact");
    assert "/contact" !in FrenchRoutes;
    LocalizedPathOf("/contact", Fr, "/contact", "/contact");
  }

  /** The strip is textual: `/frontpage` loses its `/fr`, and a bare `/fr` becomes `/`. */
  lemma TextualStripExamples()
    ensures GetLocalizedPath("/frontpage", En) == "/enontpage"
    ensures GetLocalizedPath("/fr", En) == "/en/"
  {
    assert "/frontpage"[..3] == "/fr";
    assert "/frontpage"[3..] == "ontpage";
    assert "/fr"[..3] == "/fr";
    assert "/fr"[3..] == "";
  }
}
