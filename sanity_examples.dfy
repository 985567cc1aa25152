/**
 * The content-store helpers applied to the documents of the site's tests:
 * an English and a French version naming each other, and an English
 * document with no translation.
 */
module SanityExamples {
  import opened Wrappers
  import opened Strings
  import opened I18n
  import opened SanityTranslations

  const AboutEn: Doc := Doc("doc1-en", "en", Some("doc1-fr"))
  const AboutFr: Doc := Doc("doc1-fr", "fr", Some("doc1-en"))
  const ContactEn: Doc := Doc("doc2-en", "en", None)
  const Mock: seq<Doc> := [AboutEn, AboutFr, ContactEn]

  /** Choosing a document: the exact language, then English, then the first; nothing from no documents. */
  lemma DocumentByLanguageExamples()
    ensures GetDocumentByLanguage(Mock, Fr) == Some(AboutFr)
    ensures GetDocumentByLanguage([AboutEn, ContactEn], Fr) == Some(AboutEn)
    ensures GetDocumentByLanguage([Doc("doc-de", "de", None)], Fr) == Some(Doc("doc-de", "de", None))
    ensures GetDocumentByLanguage([], En) == None
  {
    assert Mock[1..] == [AboutFr, ContactEn];
    assert FindLanguage(Mock, "fr") == Some(1);
    var noFrench := [AboutEn, ContactEn];
    assert noFrench[1..] == [ContactEn];
    assert FindLanguage(noFrench, "fr") == None;
    assert FindLanguage(noFrench, "en") == Some(0);
    var german := [Doc("doc-de", "de", None)];
    assert FindLanguage(german, "fr") == None && FindLanguage(german, "en") == None;
  }

  /** The three ids differ. */
  lemma IdsDiffer()
    ensures "doc1-fr" != "doc1-en" && "doc2-en" != "doc1-en" && "doc2-en" != "doc1-fr"
  {
    assert "doc1-fr"[5] != "doc1-en"[5];
    assert "doc2-en"[3] != "doc1-en"[3];
    assert "doc2-en"[3] != "doc1-fr"[3];
  }

  /** Collecting from the English about page picks up its French translation. */
  lemma MockCollectAbout()
    ensures Collect(AboutEn, Mock, {"doc1-en"}) == ([AboutFr], {"doc1-en", "doc1-fr"})
  {
    IdsDiffer();
    var first := {"doc1-en"};
    var both := {"doc1-en", "doc1-fr"};
    assert first + {"doc1-fr"} == both;
    assert Mock[1..] == [AboutFr, ContactEn] && Mock[1..][1..] == [ContactEn] && [ContactEn][1..] == [];
    assert !Linked(AboutEn, ContactEn) && Linked(AboutEn, AboutFr);
    assert Collect(AboutEn, [], both) == ([], both);
    CollectStep(AboutEn, [ContactEn], both);
    CollectStep(AboutEn, [AboutFr, ContactEn], first);
    assert [AboutFr] + [] == [AboutFr];
    CollectStep(AboutEn, Mock, first);
  }

  /** Collecting from the contact page once every id is processed finds nothing. */
  lemma MockCollectContact()
    ensures Collect(ContactEn, Mock, {"doc1-en", "doc1-fr", "doc2-en"}) == ([], {"doc1-en", "doc1-fr", "doc2-en"})
  {
    var all := {"doc1-en", "doc1-fr", "doc2-en"};
    assert Mock[1..] == [AboutFr, ContactEn] && Mock[1..][1..] == [ContactEn] && [ContactEn][1..] == [];
    assert Collect(ContactEn, [], all) == ([], all);
    CollectStep(ContactEn, [ContactEn], all);
    CollectStep(ContactEn, [AboutFr, ContactEn], all);
    CollectStep(ContactEn, Mock, all);
  }

  /** The linked pair forms one group and the standalone document another. */
  lemma MockGrouping()
    ensures Grouping(Mock) == [[AboutEn, AboutFr], [ContactEn]]
  {
    var first := {"doc1-en"};
    var both := {"doc1-en", "doc1-fr"};
    var all := {"doc1-en", "doc1-fr", "doc2-en"};
    assert {} + {"doc1-en"} == first && both + {"doc2-en"} == all;
    assert Mock[0] == AboutEn && Mock[1] == AboutFr && Mock[2] == ContactEn;
    MockCollectAbout();
    MockCollectContact();
    GroupsFromStep(Mock, 0, {});
    GroupsFromStep(Mock, 2, both);
    assert GroupsFrom(Mock, 3, all) == [];
    assert GroupsFrom(Mock, 2, both) == [[ContactEn] + []];
    assert [ContactEn] + [] == [ContactEn];
    assert Mock[1].id in both;
    assert GroupsFrom(Mock, 1, both) == [[ContactEn]];
    assert [AboutEn] + [AboutFr] == [AboutEn, AboutFr];
  }

  /** A single document without a translation is a group of one. */
  lemma SingleGrouping()
    ensures Grouping([ContactEn]) == [[ContactEn]]
  {
    IdsDiffer();
    var one := {"doc2-en"};
    assert {} + {"doc2-en"} == one;
    assert [ContactEn][1..] == [] && [ContactEn][0] == ContactEn;
    CollectStep(ContactEn, [ContactEn], one);
    assert "doc2-en" in one;
    assert ContactEn.id == "doc2-en";
    assert Collect(ContactEn, [], one) == ([], one);
    assert Collect(ContactEn, [ContactEn], one) == ([], one);
    GroupsFromStep([ContactEn], 0, {});
    assert GroupsFrom([ContactEn], 1, one) == [];
    assert [ContactEn] + [] == [ContactEn];
  }

  /** Both languages of the test documents are present; Spanish is not. */
  lemma GroupLanguageExamples()
    ensures HasTranslationInGroup(Mock, "en") && HasTranslationInGroup(Mock, "fr")
    ensures !HasTranslationInGroup(Mock, "es")
  {
    assert Mock[0].language == "en" && Mock[1].language == "fr" && Mock[2].language == "en";
    assert "es" != "en" by { assert "es"[1] != "en"[1]; }
    assert "es" != "fr" by { assert "es"[0] != "fr"[0]; }
  }

  /** English sorts before French. */
  lemma EnglishThenFrench()
    ensures StrictlyAscending(["en", "fr"])
  {
    assert LexLess("en", "fr") by { assert "en"[0] < "fr"[0]; }
  }

  /** The test documents' languages are English then French, and a further English document changes nothing. */
  lemma AvailableLanguagesExamples()
    ensures GetAvailableLanguages(Mock) == ["en", "fr"]
    ensures GetAvailableLanguages(Mock + [Doc("doc3-en", "en", None)]) == ["en", "fr"]
  {
    EnglishThenFrench();
    var more := Mock + [Doc("doc3-en", "en", None)];
    assert Mock[0].language == "en" && Mock[1].language == "fr" && Mock[2].language == "en";
    assert more[0].language == "en" && more[1].language == "fr" && more[2].language == "en" && more[3].language == "en";
    forall x ensures x in ["en", "fr"] <==> HasTranslationInGroup(Mock, x) {
      if HasTranslationInGroup(Mock, x) {
        var i :| 0 <= i < |Mock| && Mock[i].language == x;
      }
    }
    forall x ensures x in ["en", "fr"] <==> HasTranslationInGroup(more, x) {
      if HasTranslationInGroup(more, x) {
        var i :| 0 <= i < |more| && more[i].language == x;
      }
    }
    AvailableLanguagesAre(Mock, ["en", "fr"]);
    AvailableLanguagesAre(more, ["en", "fr"]);
  }

  /** The query for static pages filters on the type, lists the base fields and projects the translation. */
  lemma StaticPageQuery()
    ensures var q := CreateTranslationQuery("staticPage", []);
            && Contains(q, "*[_type == \"staticPage\"]")
            && Contains(q, "_id, _type, language, translation")
            && Contains(q, "translation->{_id, language}")
  {
    var q := CreateTranslationQuery("staticPage", []);
    assert TypeFilter("staticPage") == "*[_type == \"staticPage\"]";
    assert OccursAt(q, TypeFilter("staticPage"), 0);
    QueryListsFields("staticPage", []);
    assert "_id, _type, language, translation" + "" == "_id, _type, language, translation";
    QueryProjectsTranslation("staticPage", []);
    assert TranslationProjection == "translation->{_id, language}";
  }

  lemma TitleAndSlug()
    ensures "_id, _type, language, translation" + (", " + Join(["title", "slug"], ", ")) ==
            "_id, _type, language, translation, title, slug"
  {
    assert ["title", "slug"][1..] == ["slug"];
  }

  /** Extra fields follow the base fields. */
  lemma BlogPostQuery()
    ensures Contains(CreateTranslationQuery("blogPost", ["title", "slug"]), "_id, _type, language, translation, title, slug")
  {
    QueryListsFields("blogPost", ["title", "slug"]);
    TitleAndSlug();
    assert ["title", "slug"] != [];
  }
}
