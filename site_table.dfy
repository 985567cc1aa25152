/**
 * The site's own translation table and lookups in it that the site's
 * tests rely on.
 */
module SiteTable {
  import opened Wrappers
  import opened Strings
  import opened I18n
  import opened Translations

  /** The children of one top-level namespace of the table. */
  type Namespace = map<string, Node>

  /** A node with a string for each language. */
  predicate IsLeaf(n: Node)
  {
    n.Obj? && forall l: Lang :: Code(l) in n.children && n.children[Code(l)].Str?
  }

  /** A leaf with an English and a French string. */
  function Leaf(en: string, fr: string): (n: Node)
    ensures WellFormed(n)
  {
    Obj(map["en" := Str(en), "fr" := Str(fr)])
  }

  /** The English and French strings of one leaf, as the table writes them. */
  datatype Texts = Texts(en: string, fr: string)

  /** A namespace made only of leaves, one per key. */
  function Leaves(m: map<string, Texts>): (r: Namespace)
    ensures r.Keys == m.Keys
    ensures forall k | k in m :: r[k] == Leaf(m[k].en, m[k].fr)
  {
    map k | k in m :: Leaf(m[k].en, m[k].fr)
  }

  /** A namespace of leaves with no language key among its keys is well formed. */
  lemma LeavesWellFormed(m: map<string, Texts>)
    requires "en" !in m && "fr" !in m
    ensures WellFormed(Obj(Leaves(m)))
  {
    ObjWellFormed(Leaves(m));
  }

  const NavTexts: map<string, Texts> := map[
    "home" := Texts("Home", "Accueil"),
    "about" := Texts("About", "À propos"),
    "partnerships" := Texts("Partnerships", "Partenariats"),
    "blog" := Texts("Blog", "Blogue"),
    "volunteer" := Texts("Volunteer", "Bénévole")]

  const FooterTexts: map<string, Texts> := map[
    "brandDescription" := Texts(
      "Supporting colorful communities through digital solutions, partnerships, and volunteer opportunities.",
      "Soutenir les communautés colorées grâce à des solutions numériques, des partenariats et des opportunités de bénévolat."),
    "contact" := Texts("Contact Us", "Contactez-nous"),
    "emailLabel" := Texts("Email:", "Courriel :"),
    "email" := Texts("hello@colourfully.digital", "bonjour@colourfully.digital"),
    "addressLabel" := Texts("Address:", "Adresse :"),
    "address" := Texts("123 Digital Avenue, Tech City, TC 12345", "123 Avenue Numérique, Ville Tech, TC 12345"),
    "connectWithUs" := Texts("Connect With Us", "Connectez-vous avec nous"),
    "privacy" := Texts("Privacy Policy", "Politique de confidentialité"),
    "copyright" := Texts(
      "© 2025 Colourfully Digital Foundation. All rights reserved.",
      "© 2025 Fondation Colourfully Digital. Tous droits réservés.")]

  const CommonTexts: map<string, Texts> := map[
    "languageSwitch" := Texts("Switch to French", "Passer à l'anglais"),
    "home" := Texts("Home", "Accueil"),
    "loading" := Texts("Loading...", "Chargement..."),
    "error" := Texts("An error occurred", "Une erreur s'est produite"),
    "readMore" := Texts("Read More", "Lire la suite"),
    "learnMore" := Texts("Learn More", "En savoir plus"),
    "getInvolved" := Texts("Get Involved", "S'impliquer"),
    "backToHome" := Texts("Back to Home", "Retour à l'accueil"),
    "pageNotFound" := Texts("Page Not Found", "Page non trouvée"),
    "comingSoon" := Texts("Coming Soon", "Bientôt disponible")]

  const PaginationTexts: map<string, Texts> := map[
    "previous" := Texts("Previous", "Précédent"),
    "next" := Texts("Next", "Suivant"),
    "page" := Texts("Page", "Page")]

  const BlogTexts: map<string, Texts> := map[
    "title" := Texts("News & Events", "Nouvelles et événements"),
    "description" := Texts(
      "Stay updated with our latest news, events, and community initiatives.",
      "Restez informé de nos dernières nouvelles, événements et initiatives communautaires."),
    "readMore" := Texts("Read More", "Lire la suite"),
    "publishedOn" := Texts("Published on", "Publié le"),
    "by" := Texts("by", "par"),
    "noPostsFound" := Texts("No blog posts found.", "Aucun article trouvé."),
    "loadingPosts" := Texts("Loading blog posts...", "Chargement des articles..."),
    "backToBlog" := Texts("Back to News & Events", "Retour aux nouvelles et événements")]

  const VolunteerTexts: map<string, Texts> := map[
    "title" := Texts("Volunteer Opportunities", "Opportunités de bénévolat"),
    "description" := Texts(
      "Make a difference in colorful communities by joining our volunteer programs.",
      "Faites une différence dans les communautés colorées en rejoignant nos programmes de bénévolat."),
    "applyNow" := Texts("Apply Now", "Postuler maintenant"),
    "requirements" := Texts("Requirements", "Exigences"),
    "timeCommitment" := Texts("Time Commitment", "Engagement de temps"),
    "noRolesFound" := Texts("No volunteer opportunities are currently available.",
                           "Aucune opportunité de bénévolat n'est actuellement disponible."),
    "loadingRoles" := Texts("Loading volunteer opportunities...", "Chargement des opportunités de bénévolat..."),
    "backToVolunteer" := Texts("Back to Volunteer Opportunities", "Retour aux opportunités de bénévolat")]

  const MetaTexts: map<string, Texts> := map[
    "defaultDescription" := Texts(
      "Colourfully Digital - Supporting colorful communities through digital solutions, partnerships, and volunteer opportunities.",
      "Colourfully Digital - Soutenir les communautés colorées grâce à des solutions numériques, des partenariats et des opportunités de bénévolat.")]

  const Nav: Namespace := Leaves(NavTexts)
  const Footer: Namespace := Leaves(FooterTexts)
  const Common: Namespace := Leaves(CommonTexts)
  const Pagination: Namespace := Leaves(PaginationTexts)
  const BlogLeaves: Namespace := Leaves(BlogTexts)
  const Volunteer: Namespace := Leaves(VolunteerTexts)
  const Meta: Namespace := Leaves(MetaTexts)

  const Blog: map<string, Node> := BlogLeaves["pagination" := Obj(Pagination)]

  /** The top level of the table: one object per namespace. */
  function Namespaces(nav: map<string, Node>, footer: map<string, Node>, common: map<string, Node>,
                      blog: map<string, Node>, volunteer: map<string, Node>, meta: map<string, Node>): Node
  {
    Obj(map[
      "nav" := Obj(nav),
      "footer" := Obj(footer),
      "common" := Obj(common),
      "blog" := Obj(blog),
      "volunteer" := Obj(volunteer),
      "meta" := Obj(meta)])
  }

  /** `t` is an object whose child `name` is the namespace `ns`. */
  predicate HasNamespace(t: Node, name: string, ns: Namespace)
  {
    t.Obj? && name in t.children && t.children[name] == Obj(ns)
  }

  /** The names of the six namespaces. */
  const NamespaceNames: set<string> := {"nav", "footer", "common", "blog", "volunteer", "meta"}

  /** A table built from six namespaces holds each under its name, and nothing else. */
  lemma NamespacesHold(nav: Namespace, footer: Namespace, common: Namespace,
                       blog: Namespace, volunteer: Namespace, meta: Namespace)
    ensures var t := Namespaces(nav, footer, common, blog, volunteer, meta);
            && HasNamespace(t, "nav", nav) && HasNamespace(t, "footer", footer)
            && HasNamespace(t, "common", common) && HasNamespace(t, "blog", blog)
            && HasNamespace(t, "volunteer", volunteer) && HasNamespace(t, "meta", meta)
            && t.Obj? && t.children.Keys == NamespaceNames
  {
  }

  /** The site's translation table. */
  const DefaultTable: Node := Namespaces(Nav, Footer, Common, Blog, Volunteer, Meta)

  /** An object of well-formed children with no language keys is well formed. */
  lemma ObjWellFormed(m: map<string, Node>)
    requires Code(En) !in m && Code(Fr) !in m
    requires forall k | k in m :: WellFormed(m[k])
    ensures WellFormed(Obj(m))
  {
    assert LeafShaped(Obj(m)) by {
      forall l: Lang ensures Code(l) !in m {
        if l == En {} else {}
      }
    }
  }

  lemma NavWellFormed()
    ensures WellFormed(Obj(Nav))
  {
    assert "en" !in NavTexts && "fr" !in NavTexts;
    LeavesWellFormed(NavTexts);
  }

  lemma FooterWellFormed()
    ensures WellFormed(Obj(Footer))
  {
    assert "en" !in FooterTexts && "fr" !in FooterTexts;
    LeavesWellFormed(FooterTexts);
  }

  lemma CommonWellFormed()
    ensures WellFormed(Obj(Common))
  {
    assert "en" !in CommonTexts && "fr" !in CommonTexts;
    LeavesWellFormed(CommonTexts);
  }

  lemma PaginationWellFormed()
    ensures WellFormed(Obj(Pagination))
  {
    assert "en" !in PaginationTexts && "fr" !in PaginationTexts;
    LeavesWellFormed(PaginationTexts);
  }

  lemma BlogLeavesWellFormed()
    ensures WellFormed(Obj(BlogLeaves))
  {
    assert "en" !in BlogTexts && "fr" !in BlogTexts;
    LeavesWellFormed(BlogTexts);
  }

  lemma VolunteerWellFormed()
    ensures WellFormed(Obj(Volunteer))
  {
    assert "en" !in VolunteerTexts && "fr" !in VolunteerTexts;
    LeavesWellFormed(VolunteerTexts);
  }

  lemma MetaWellFormed()
    ensures WellFormed(Obj(Meta))
  {
    assert "en" !in MetaTexts && "fr" !in MetaTexts;
    LeavesWellFormed(MetaTexts);
  }

  /** Adding a well-formed child under a key that is not a language code keeps an object well formed. */
  lemma UpdateWellFormed(m: map<string, Node>, k: string, v: Node)
    requires WellFormed(Obj(m)) && WellFormed(v)
    requires k != Code(En) && k != Code(Fr)
    ensures WellFormed(Obj(m[k := v]))
  {
    var u := m[k := v];
    forall l: Lang | Code(l) in u ensures u[Code(l)].Str? {
      assert Code(l) != k;
      assert Code(l) in m && u[Code(l)] == m[Code(l)];
    }
    forall j | j in u ensures WellFormed(u[j]) {
      if j != k {
        assert WellFormed(m[j]);
      }
    }
  }

  lemma BlogWellFormed()
    ensures WellFormed(Obj(Blog))
  {
    PaginationWellFormed();
    BlogLeavesWellFormed();
    UpdateWellFormed(BlogLeaves, "pagination", Obj(Pagination));
  }

  /** Namespaces that are well formed make a well-formed table. */
  lemma NamespacesWellFormed(nav: map<string, Node>, footer: map<string, Node>, common: map<string, Node>,
                             blog: map<string, Node>, volunteer: map<string, Node>, meta: map<string, Node>)
    requires WellFormed(Obj(nav)) && WellFormed(Obj(footer)) && WellFormed(Obj(common))
    requires WellFormed(Obj(blog)) && WellFormed(Obj(volunteer)) && WellFormed(Obj(meta))
    ensures WellFormed(Namespaces(nav, footer, common, blog, volunteer, meta))
  {
    var top := Namespaces(nav, footer, common, blog, volunteer, meta).children;
    assert "en" !in top && "fr" !in top;
    ObjWellFormed(top);
  }

  /** The site's table satisfies the well-formedness the lookups rely on. */
  lemma DefaultTableWellFormed()
    ensures WellFormed(DefaultTable)
  {
    NavWellFormed();
    FooterWellFormed();
    CommonWellFormed();
    BlogWellFormed();
    VolunteerWellFormed();
    MetaWellFormed();
    NamespacesWellFormed(Nav, Footer, Common, Blog, Volunteer, Meta);
  }
}
