/**
 * Key-based translation lookup over a nested table whose innermost objects map
 * language codes to strings, with fallback from French to English, then to a
 * caller-supplied text, then to the key itself.
 */
module Translations {
  import opened Wrappers
  import opened Strings
  import opened I18n

  /** A node of the translation table: a string, or an object of named children. */
  datatype Node = Str(text: string) | Obj(children: map<string, Node>)

  /** A node whose language entries, where present, are strings. */
  predicate LeafShaped(n: Node)
  {
    n.Obj? ==> forall l: Lang :: Code(l) in n.children ==> n.children[Code(l)].Str?
  }

  /** Every node of the table is leaf-shaped: an `en` or `fr` key always holds a string. */
  predicate WellFormed(n: Node)
  {
    && LeafShaped(n)
    && (n.Obj? ==> forall k | k in n.children :: WellFormed(n.children[k]))
  }

  /** `FALLBACK_LANGUAGE` and `getFallbackLanguage`. */
  function GetFallbackLanguage(): (l: Lang)
    ensures Code(l) == "en"
  {
    En
  }

  /**
   * The descent of the `for` loops of `t` and `hasTranslation`: follow the keys
   * through objects; stop with nothing at a missing key or at a string reached
   * before the keys run out.
   */
  function Walk(n: Node, keys: seq<string>): (r: Option<Node>)
    ensures WellFormed(n) && r.Some? ==> WellFormed(r.value)
  {
    if keys == [] then Some(n)
    else
      match n
      case Obj(c) => if keys[0] in c then Walk(c[keys[0]], keys[1..]) else None
      case Str(_) => None
  }

  /**
   * The string a reached node gives for `l`: its own entry, else the English
   * one when `l` is not English; nothing for a string node.
   */
  function Entry(n: Node, l: Lang): (r: Option<string>)
    requires LeafShaped(n)
    ensures r.Some? ==> n.Obj? && (Code(l) in n.children || (l != GetFallbackLanguage() && "en" in n.children))
    ensures n.Obj? && Code(l) in n.children ==> r == Some(n.children[Code(l)].text)
    ensures n.Obj? && Code(l) !in n.children && l != GetFallbackLanguage() && "en" in n.children ==>
              r == Some(n.children["en"].text)
  {
    match n
    case Str(_) => None
    case Obj(c) =>
      if Code(l) in c then Some(c[Code(l)].text)
      else if l != GetFallbackLanguage() && Code(GetFallbackLanguage()) in c then Some(c[Code(GetFallbackLanguage())].text)
      else None
  }

  /** `fallback || key`: an absent fallback is the empty string. */
  function OrKey(fallback: string, key: string): (r: string)
    ensures r == fallback || r == key
    ensures r == key <==> fallback == "" || fallback == key
  {
    if fallback != "" then fallback else key
  }

  /** What `t(key, l, fallback)` returns for `table`. */
  function TranslationOf(table: Node, key: string, l: Lang, fallback: string): string
    requires WellFormed(table)
    decreases if l == En then 0 else 1
  {
    match Walk(table, Split(key, '.'))
    case None =>
      if l != GetFallbackLanguage() then TranslationOf(table, key, GetFallbackLanguage(), fallback)
      else OrKey(fallback, key)
    case Some(n) => Entry(n, l).GetOr(OrKey(fallback, key))
  }

  /** `t`: the descent loop, then the entry for `l`, the English entry, or the fallback. */
  method Translate(table: Node, key: string, l: Lang, fallback: string) returns (r: string)
    requires WellFormed(table)
    ensures r == TranslationOf(table, key, l, fallback)
    decreases if l == En then 0 else 1
  {
    var keys := Split(key, '.');
    var current := table;
    for i := 0 to |keys|
      invariant WellFormed(current)
      invariant Walk(table, keys) == Walk(current, keys[i..])
    {
      var k := keys[i];
      if current.Obj? && k in current.children {
        assert keys[i..][1..] == keys[i + 1..];
        current := current.children[k];
      } else {
        if l != GetFallbackLanguage() {
          r := Translate(table, key, GetFallbackLanguage(), fallback);
          return;
        }
        return OrKey(fallback, key);
      }
    }
    if current.Obj? && Code(l) in current.children {
      return current.children[Code(l)].text;
    }
    if l != GetFallbackLanguage() && current.Obj? && Code(GetFallbackLanguage()) in current.children {
      return current.children[Code(GetFallbackLanguage())].text;
    }
    return OrKey(fallback, key);
  }

  /** What `hasTranslation(key, l)` answers: the key reaches an object whose `l` entry is a string. */
  predicate Translated(table: Node, key: string, l: Lang)
  {
    match Walk(table, Split(key, '.'))
    case Some(Obj(c)) => Code(l) in c && c[Code(l)].Str?
    case _ => false
  }

  /** `hasTranslation`: the same descent, with no fallback of any kind. */
  method HasTranslation(table: Node, key: string, l: Lang) returns (r: bool)
    ensures r == Translated(table, key, l)
  {
    var keys := Split(key, '.');
    var current := table;
    for i := 0 to |keys|
      invariant Walk(table, keys) == Walk(current, keys[i..])
    {
      var k := keys[i];
      if current.Obj? && k in current.children {
        assert keys[i..][1..] == keys[i + 1..];
        current := current.children[k];
      } else {
        return false;
      }
    }
    return current.Obj? && Code(l) in current.children && current.children[Code(l)].Str?;
  }

  /** What `getNamespaceTranslations(ns, l)` returns: each child of `ns` that has a string for `l`. */
  function NamespaceTranslationsOf(table: Node, ns: string, l: Lang): map<string, string>
    requires WellFormed(table)
  {
    if table.Obj? && ns in table.children && table.children[ns].Obj? then
      assert WellFormed(table.children[ns]);
      ChildEntries(table.children[ns].children, l)
    else
      map[]
  }

  /**
   * The loop of `getNamespaceTranslations` over one namespace: an object child
   * is listed under its key with its own text for `l`, or with the English text
   * when `l` is not English and has none; other children are left out.
   */
  function ChildEntries(c: map<string, Node>, l: Lang): (r: map<string, string>)
    requires forall k | k in c :: LeafShaped(c[k])
    ensures forall k :: k in r <==>
              k in c && c[k].Obj? && (Code(l) in c[k].children || (l != GetFallbackLanguage() && "en" in c[k].children))
    ensures forall k | k in c && c[k].Obj? && Code(l) in c[k].children && c[k].children[Code(l)].Str? ::
              r[k] == c[k].children[Code(l)].text
    ensures forall k | k in c && c[k].Obj? && Code(l) !in c[k].children && l != GetFallbackLanguage()
                       && "en" in c[k].children && c[k].children["en"].Str? ::
              r[k] == c[k].children["en"].text
  {
    map k | k in c && Entry(c[k], l).Some? :: Entry(c[k], l).value
  }

  /** `getNamespaceTranslations`: fills the result record one child of the namespace at a time. */
  method GetNamespaceTranslations(table: Node, ns: string, l: Lang) returns (result: map<string, string>)
    requires WellFormed(table)
    ensures result == NamespaceTranslationsOf(table, ns, l)
  {
    result := map[];
    if !(table.Obj? && ns in table.children && table.children[ns].Obj?) {
      return;
    }
    var entries := table.children[ns].children;
    assert WellFormed(table.children[ns]);
    var todo := entries.Keys;
    while todo != {}
      invariant todo <= entries.Keys
      invariant forall k | k in entries :: WellFormed(entries[k])
      invariant result == map k | k in entries && k !in todo && Entry(entries[k], l).Some? :: Entry(entries[k], l).value
      decreases todo
    {
      var key :| key in todo;
      var value := entries[key];
      assert LeafShaped(value);
      if value.Obj? {
        if Code(l) in value.children {
          result := result[key := value.children[Code(l)].text];
        } else if l != GetFallbackLanguage() && Code(GetFallbackLanguage()) in value.children {
          result := result[key := value.children[Code(GetFallbackLanguage())].text];
        }
      }
      todo := todo - {key};
    }
  }

  /** `getLocaleString`: the language code with the Canadian region. */
  function GetLocaleString(l: Lang): (locale: string)
    ensures locale == Code(l) + "-CA"
  {
    if l == Fr then "fr-CA" else Code(GetFallbackLanguage()) + "-CA"
  }

  /** Reading direction. */
  datatype Direction = Ltr | Rtl

  /** `getTextDirection`: both supported languages read left to right. */
  function GetTextDirection(l: Lang): (d: Direction)
    ensures d == Ltr
  {
    Ltr
  }

  // ---------------------------------------------------------------------
  // Properties of t, hasTranslation and getNamespaceTranslations
  // ---------------------------------------------------------------------

  /** A key that reaches an object with an entry for `l` is translated by that entry. */
  lemma FoundEntryIsReturned(table: Node, key: string, l: Lang, fallback: string)
    requires WellFormed(table)
    requires Walk(table, Split(key, '.')).Some? && Walk(table, Split(key, '.')).value.Obj?
    requires Code(l) in Walk(table, Split(key, '.')).value.children
    ensures TranslationOf(table, key, l, fallback) == Walk(table, Split(key, '.')).value.children[Code(l)].text
  {
  }

  /**
   * French either has its own entry or gives exactly what English gives, so `t`
   * recurses at most once and English never falls back further.
   */
  lemma FrenchFallsBackToEnglish(table: Node, key: string, fallback: string)
    requires WellFormed(table)
    ensures Translated(table, key, Fr) ==>
              TranslationOf(table, key, Fr, fallback) == Walk(table, Split(key, '.')).value.children["fr"].text
    ensures !Translated(table, key, Fr) ==>
              TranslationOf(table, key, Fr, fallback) == TranslationOf(table, key, En, fallback)
  {
  }

  /** A key that leaves the table gives the same text in every language: the fallback, or else the key. */
  lemma MissingPathGivesFallbackOrKey(table: Node, key: string, l: Lang, fallback: string)
    requires WellFormed(table)
    requires Walk(table, Split(key, '.')).None?
    ensures TranslationOf(table, key, l, fallback) == (if fallback != "" then fallback else key)
  {
  }

  /** An English lookup is the English entry when there is one, and otherwise the fallback or the key. */
  lemma EnglishNeverFallsBack(table: Node, key: string, fallback: string)
    requires WellFormed(table)
    ensures Translated(table, key, En) ==>
              TranslationOf(table, key, En, fallback) == Walk(table, Split(key, '.')).value.children["en"].text
    ensures !Translated(table, key, En) ==>
              TranslationOf(table, key, En, fallback) == OrKey(fallback, key)
  {
  }

  /** `hasTranslation` consults `l` alone: a leaf with only English is untranslated for French, yet `t` returns the English. */
  lemma HasTranslationIgnoresEnglish(table: Node, key: string, fallback: string)
    requires WellFormed(table)
    requires Walk(table, Split(key, '.')).Some? && Walk(table, Split(key, '.')).value.Obj?
    requires Code(Fr) !in Walk(table, Split(key, '.')).value.children
    requires Code(En) in Walk(table, Split(key, '.')).value.children
    ensures !Translated(table, key, Fr)
    ensures TranslationOf(table, key, Fr, fallback) == Walk(table, Split(key, '.')).value.children[Code(En)].text
  {
  }

  /** Two dot-free names joined by a dot split back into those two keys. */
  lemma SplitDotted(a: string, b: string)
    requires '.' !in a && '.' !in b
    ensures Split(a + "." + b, '.') == [a, b]
  {
    assert Join([a, b], ".") == a + "." + b by {
      assert [a, b][1..] == [b];
    }
    SplitJoin([a, b], '.');
  }

  /**
   * Each entry of a namespace is what `t` gives for `ns.child`, and a child the
   * namespace leaves out makes `t` answer with the fallback or the key.
   */
  lemma NamespaceAgreesWithTranslate(table: Node, ns: string, k: string, l: Lang, fallback: string)
    requires WellFormed(table)
    requires '.' !in ns && '.' !in k
    requires table.Obj? && ns in table.children && table.children[ns].Obj? && k in table.children[ns].children
    ensures var result := NamespaceTranslationsOf(table, ns, l);
            && (k in result ==> result[k] == TranslationOf(table, ns + "." + k, l, fallback))
            && (k !in result ==> TranslationOf(table, ns + "." + k, l, fallback) == OrKey(fallback, ns + "." + k))
  {
    SplitDotted(ns, k);
    var child := table.children[ns].children[k];
    assert Walk(table, [ns, k]) == Walk(table.children[ns], [k]) by {
      assert [ns, k][1..] == [k];
    }
    assert Walk(table.children[ns], [k]) == Walk(child, []) by {
      assert [k][1..] == [];
    }
    if l == Fr && Entry(child, Fr).None? {
      assert Entry(child, En).None?;
    }
  }

  /** The namespace map names only children of the namespace, and is empty when there is no such namespace. */
  lemma NamespaceKeys(table: Node, ns: string, l: Lang)
    requires WellFormed(table)
    ensures !(table.Obj? && ns in table.children && table.children[ns].Obj?) ==> NamespaceTranslationsOf(table, ns, l) == map[]
    ensures table.Obj? && ns in table.children && table.children[ns].Obj? ==>
              NamespaceTranslationsOf(table, ns, l).Keys <= table.children[ns].children.Keys
  {
  }
}
