/**
 * Helpers for documents fetched from the content store that exist in several
 * language versions linked by translation references: choosing a version,
 * grouping versions together, listing and testing languages, building the
 * fetch query, and language-prefixed routes.
 */
module SanityTranslations {
  import opened Wrappers
  import opened Strings
  import opened I18n
  import opened Translations

  /**
   * A translatable document: its id, its language code (any string, since
   * stored documents may carry languages the site does not support), and the
   * id its `translation` reference names, if it has one.
   */
  datatype Doc = Doc(id: string, language: string, translationRef: Option<string>)

  // ---------------------------------------------------------------------
  // getDocumentByLanguage
  // ---------------------------------------------------------------------

  /** `documents.find(doc => doc.language === language)`, as the index found. */
  function FindLanguage(docs: seq<Doc>, language: string): (r: Option<nat>)
    ensures r.Some? ==> r.value < |docs| && docs[r.value].language == language
    ensures r.Some? ==> forall j | 0 <= j < r.value :: docs[j].language != language
    ensures r.None? ==> forall j | 0 <= j < |docs| :: docs[j].language != language
  {
    if docs == [] then None
    else if docs[0].language == language then Some(0)
    else
      match FindLanguage(docs[1..], language)
      case None => None
      case Some(i) => Some(i + 1)
  }

  /** `getDocumentByLanguage`: the target language, else the fallback language, else the first document. */
  function GetDocumentByLanguage(docs: seq<Doc>, target: Lang): (r: Option<Doc>)
    ensures r.None? <==> docs == []
    ensures r.Some? ==> r.value in docs
  {
    if docs == [] then None
    else
      match FindLanguage(docs, Code(target))
      case Some(i) => Some(docs[i])
      case None =>
        match FindLanguage(docs, Code(GetFallbackLanguage()))
        case Some(i) => Some(docs[i])
        case None => Some(docs[0])
  }

  /** How well a document suits `target`: its own language, then the fallback language, then anything. */
  function Rank(d: Doc, target: Lang): nat
  {
    if d.language == Code(target) then 0
    else if d.language == Code(GetFallbackLanguage()) then 1
    else 2
  }

  /** Document `i` has the best rank, and is the first document with that rank. */
  ghost predicate IsPreferred(docs: seq<Doc>, target: Lang, i: int)
  {
    && 0 <= i < |docs|
    && (forall j | 0 <= j < |docs| :: Rank(docs[i], target) <= Rank(docs[j], target))
    && (forall j | 0 <= j < i :: Rank(docs[i], target) < Rank(docs[j], target))
  }

  /** The chosen document is the first one of best rank. */
  lemma PreferredDocumentChosen(docs: seq<Doc>, target: Lang)
    requires docs != []
    ensures exists i :: IsPreferred(docs, target, i) && GetDocumentByLanguage(docs, target) == Some(docs[i])
  {
    match FindLanguage(docs, Code(target))
    case Some(i) =>
      assert IsPreferred(docs, target, i);
      assert GetDocumentByLanguage(docs, target) == Some(docs[i]);
    case None =>
      match FindLanguage(docs, Code(GetFallbackLanguage()))
      case Some(i) =>
        assert forall j | 0 <= j < |docs| :: Rank(docs[j], target) >= 1;
        assert forall j | 0 <= j < i :: Rank(docs[j], target) == 2;
        assert IsPreferred(docs, target, i);
        assert GetDocumentByLanguage(docs, target) == Some(docs[i]);
      case None =>
        assert forall j | 0 <= j < |docs| :: Rank(docs[j], target) == 2;
        assert IsPreferred(docs, target, 0);
        assert GetDocumentByLanguage(docs, target) == Some(docs[0]);
  }

  /** At most one document is preferred. */
  lemma PreferredIsUnique(docs: seq<Doc>, target: Lang, i: int, j: int)
    requires IsPreferred(docs, target, i) && IsPreferred(docs, target, j)
    ensures i == j
  {
    assert Rank(docs[i], target) <= Rank(docs[j], target) && Rank(docs[j], target) <= Rank(docs[i], target);
  }

  // ---------------------------------------------------------------------
  // groupDocumentsByTranslation
  // ---------------------------------------------------------------------

  /**
   * The link test: the seed names the other document, the other names the
   * seed, or both name the same non-empty id.
   */
  predicate Linked(seed: Doc, other: Doc)
  {
    || seed.translationRef == Some(other.id)
    || other.translationRef == Some(seed.id)
    || (seed.translationRef.Some? && seed.translationRef.value != "" && other.translationRef == seed.translationRef)
  }

  /** The link test reads the same from either document. */
  lemma LinkedSymmetric(a: Doc, b: Doc)
    ensures Linked(a, b) <==> Linked(b, a)
  {
  }

  /** The ids of some documents. */
  ghost function Ids(s: seq<Doc>): set<string>
  {
    set d | d in s :: d.id
  }

  /** No two documents share an id. */
  ghost predicate DistinctIds(s: seq<Doc>)
  {
    forall a, b | 0 <= a < b < |s| :: s[a].id != s[b].id
  }

  /** All groups one after another. */
  function Flatten(gs: seq<seq<Doc>>): (r: seq<Doc>)
    ensures forall x :: x in r <==> exists k :: 0 <= k < |gs| && x in gs[k]
  {
    if gs == [] then []
    else
      var rest := Flatten(gs[1..]);
      assert forall x :: x in rest <==> exists k :: 1 <= k < |gs| && x in gs[k] by {
        forall x ensures x in rest <==> exists k :: 1 <= k < |gs| && x in gs[k] {
          if x in rest {
            var k :| 0 <= k < |gs[1..]| && x in gs[1..][k];
            assert x in gs[k + 1];
          }
          if exists k :: 1 <= k < |gs| && x in gs[k] {
            var k :| 1 <= k < |gs| && x in gs[k];
            assert x in gs[1..][k - 1];
          }
        }
      }
      gs[0] + rest
  }

  /**
   * The inner loop of the grouping as a recursion over the documents still to
   * scan: each one whose id is not yet processed and that is linked to the
   * seed joins the group, and its id becomes processed.
   */
  function Collect(seed: Doc, rest: seq<Doc>, processed: set<string>): (seq<Doc>, set<string>)
  {
    if rest == [] then ([], processed)
    else if rest[0].id in processed then Collect(seed, rest[1..], processed)
    else if Linked(seed, rest[0]) then
      var (members, p) := Collect(seed, rest[1..], processed + {rest[0].id});
      ([rest[0]] + members, p)
    else
      Collect(seed, rest[1..], processed)
  }

  /**
   * The inner scan gathers documents linked to the seed whose ids are new and
   * distinct, marks exactly their ids processed, and leaves no linked
   * document's id unprocessed.
   */
  lemma {:induction false} CollectFacts(seed: Doc, rest: seq<Doc>, processed: set<string>)
    ensures var r := Collect(seed, rest, processed);
            && r.1 == processed + Ids(r.0)
            && Ids(r.0) !! processed && DistinctIds(r.0)
            && (forall x | x in r.0 :: x in rest && Linked(seed, x))
            && (forall x | x in rest && Linked(seed, x) :: x.id in r.1)
  {
    if rest != [] {
      if rest[0].id in processed || !Linked(seed, rest[0]) {
        CollectFacts(seed, rest[1..], processed);
      } else {
        CollectFacts(seed, rest[1..], processed + {rest[0].id});
        var (members, p) := Collect(seed, rest[1..], processed + {rest[0].id});
        assert Ids([rest[0]] + members) == {rest[0].id} + Ids(members);
        DistinctAppend([rest[0]], members);
      }
    }
  }

  /** The outer loop from document `i` on, with the ids already processed. */
  function GroupsFrom(docs: seq<Doc>, i: nat, processed: set<string>): seq<seq<Doc>>
    decreases |docs| - i
  {
    if i >= |docs| then []
    else if docs[i].id in processed then GroupsFrom(docs, i + 1, processed)
    else
      var (members, p) := Collect(docs[i], docs, processed + {docs[i].id});
      [[docs[i]] + members] + GroupsFrom(docs, i + 1, p)
  }

  /** One step of the inner scan. */
  lemma CollectStep(seed: Doc, rest: seq<Doc>, processed: set<string>)
    requires rest != []
    ensures rest[0].id in processed ==> Collect(seed, rest, processed) == Collect(seed, rest[1..], processed)
    ensures rest[0].id !in processed && !Linked(seed, rest[0]) ==> Collect(seed, rest, processed) == Collect(seed, rest[1..], processed)
    ensures rest[0].id !in processed && Linked(seed, rest[0]) ==>
              var c := Collect(seed, rest[1..], processed + {rest[0].id});
              Collect(seed, rest, processed) == ([rest[0]] + c.0, c.1)
  {
  }

  /** The inner scan advanced past document `j`, with the members gathered so far in front. */
  lemma CollectAdvance(seed: Doc, docs: seq<Doc>, j: nat, processed: set<string>, prefix: seq<Doc>)
    requires j < |docs|
    ensures var x := docs[j];
            var here := Collect(seed, docs[j..], processed);
            if x.id in processed || !Linked(seed, x) then
              here == Collect(seed, docs[j + 1..], processed)
            else
              var next := Collect(seed, docs[j + 1..], processed + {x.id});
              prefix + here.0 == (prefix + [x]) + next.0 && here.1 == next.1
  {
    CollectStep(seed, docs[j..], processed);
    assert docs[j..][0] == docs[j] && docs[j..][1..] == docs[j + 1..];
  }

  /** What `groupDocumentsByTranslation` returns. */
  function Grouping(docs: seq<Doc>): seq<seq<Doc>>
  {
    GroupsFrom(docs, 0, {})
  }

  /** `groupDocumentsByTranslation`: nested scans over the documents with a set of processed ids. */
  method GroupDocumentsByTranslation(docs: seq<Doc>) returns (groups: seq<seq<Doc>>)
    ensures groups == Grouping(docs)
    ensures IsTranslationGrouping(docs, groups)
  {
    var processed: set<string> := {};
    groups := [];
    for i := 0 to |docs|
      invariant Grouping(docs) == groups + GroupsFrom(docs, i, processed)
    {
      var doc := docs[i];
      if doc.id in processed {
        continue;
      }
      var group := [doc];
      ghost var before := processed;
      processed := processed + {doc.id};
      ghost var start := processed;
      assert docs[0..] == docs;
      for j := 0 to |docs|
        invariant |group| >= 1 && group[0] == doc
        invariant Collect(doc, docs, start).0 == group[1..] + Collect(doc, docs[j..], processed).0
        invariant Collect(doc, docs, start).1 == Collect(doc, docs[j..], processed).1
      {
        var other := docs[j];
        CollectAdvance(doc, docs, j, processed, group[1..]);
        if other.id in processed {
          continue;
        }
        if Linked(doc, other) {
          assert (group + [other])[1..] == group[1..] + [other];
          group := group + [other];
          processed := processed + {other.id};
        }
      }
      assert docs[|docs|..] == [];
      assert Collect(doc, docs[|docs|..], processed) == ([], processed);
      assert group[1..] + [] == group[1..];
      ClosedGroup(docs, i, before, group, processed);
      assert groups + GroupsFrom(docs, i, before) == (groups + [group]) + GroupsFrom(docs, i + 1, processed);
      groups := groups + [group];
    }
    GroupingIsTranslationGrouping(docs);
  }

  /**
   * What the grouping promises: groups are non-empty and made of the input
   * documents; every id of the input occurs exactly once over all groups;
   * every later member of a group is linked to the group's first document;
   * and every document linked to a group's first document, whose id no
   * earlier group holds, has its id in that group.
   */
  ghost predicate IsTranslationGrouping(docs: seq<Doc>, gs: seq<seq<Doc>>)
  {
    && (forall k | 0 <= k < |gs| :: gs[k] != [])
    && (forall k, x | 0 <= k < |gs| && x in gs[k] :: x in docs)
    && DistinctIds(Flatten(gs))
    && Ids(Flatten(gs)) == Ids(docs)
    && (forall k, m | 0 <= k < |gs| && 1 <= m < |gs[k]| :: Linked(gs[k][0], gs[k][m]))
    && (forall k, x | 0 <= k < |gs| && x in docs && Linked(gs[k][0], x) && EarlierGroupsLack(gs, k, x.id) :: x.id in Ids(gs[k]))
  }

  /** No group before `k` holds `id`. */
  ghost predicate EarlierGroupsLack(gs: seq<seq<Doc>>, k: int, id: string)
  {
    forall j | 0 <= j < k && j < |gs| :: id !in Ids(gs[j])
  }

  lemma IdsAppend(a: seq<Doc>, b: seq<Doc>)
    ensures Ids(a + b) == Ids(a) + Ids(b)
  {
  }

  lemma DistinctAppend(a: seq<Doc>, b: seq<Doc>)
    requires DistinctIds(a) && DistinctIds(b) && Ids(a) !! Ids(b)
    ensures DistinctIds(a + b)
  {
    forall p, q | 0 <= p < q < |a + b| ensures (a + b)[p].id != (a + b)[q].id {
      if p < |a| && q >= |a| {
        assert (a + b)[p].id in Ids(a);
        assert (a + b)[q] == b[q - |a|];
        assert (a + b)[q].id in Ids(b);
      }
    }
  }

  lemma DistinctSplit(a: seq<Doc>, b: seq<Doc>)
    requires DistinctIds(a + b)
    ensures DistinctIds(a) && DistinctIds(b) && Ids(a) !! Ids(b)
  {
    forall p, q | 0 <= p < q < |a| ensures a[p].id != a[q].id {
      assert (a + b)[p] == a[p] && (a + b)[q] == a[q];
    }
    forall p, q | 0 <= p < q < |b| ensures b[p].id != b[q].id {
      assert (a + b)[|a| + p] == b[p] && (a + b)[|a| + q] == b[q];
    }
    forall x, y | x in a && y in b ensures x.id != y.id {
      var p :| 0 <= p < |a| && a[p] == x;
      var q :| 0 <= q < |b| && b[q] == y;
      assert (a + b)[p] == x && (a + b)[|a| + q] == y;
    }
  }

  /** The outer recursion on an unprocessed document: a new group, then the rest. */
  lemma GroupsFromStep(docs: seq<Doc>, i: nat, processed: set<string>)
    requires i < |docs| && docs[i].id !in processed
    ensures var c := Collect(docs[i], docs, processed + {docs[i].id});
            && GroupsFrom(docs, i, processed) == [[docs[i]] + c.0] + GroupsFrom(docs, i + 1, c.1)
            && c.1 == processed + Ids([docs[i]] + c.0)
            && DistinctIds([docs[i]] + c.0)
            && Ids([docs[i]] + c.0) !! processed
            && (forall x | x in c.0 :: x in docs && Linked(docs[i], x))
            && (forall x | x in docs && Linked(docs[i], x) :: x.id in c.1)
  {
    var c := Collect(docs[i], docs, processed + {docs[i].id});
    CollectFacts(docs[i], docs, processed + {docs[i].id});
    IdsAppend([docs[i]], c.0);
    assert Ids([docs[i]]) == {docs[i].id};
    DistinctAppend([docs[i]], c.0);
  }

  /** A group whose scan has finished is the next group of the grouping. */
  lemma ClosedGroup(docs: seq<Doc>, i: nat, before: set<string>, group: seq<Doc>, processed: set<string>)
    requires i < |docs| && docs[i].id !in before
    requires |group| >= 1 && group[0] == docs[i]
    requires Collect(docs[i], docs, before + {docs[i].id}) == (group[1..], processed)
    ensures GroupsFrom(docs, i, before) == [group] + GroupsFrom(docs, i + 1, processed)
  {
    assert group == [docs[i]] + group[1..];
  }

  /** Groups are non-empty, hold input documents, and their later members are linked to their first. */
  ghost predicate ShapeFacts(docs: seq<Doc>, gs: seq<seq<Doc>>)
  {
    && (forall k | 0 <= k < |gs| :: gs[k] != [])
    && (forall k, x | 0 <= k < |gs| && x in gs[k] :: x in docs)
    && (forall k, m | 0 <= k < |gs| && 1 <= m < |gs[k]| :: Linked(gs[k][0], gs[k][m]))
  }

  lemma {:induction false} GroupsFromShape(docs: seq<Doc>, i: nat, processed: set<string>)
    ensures ShapeFacts(docs, GroupsFrom(docs, i, processed))
    decreases |docs| - i
  {
    if i >= |docs| {
    } else if docs[i].id in processed {
      GroupsFromShape(docs, i + 1, processed);
    } else {
      GroupsFromStep(docs, i, processed);
      var c := Collect(docs[i], docs, processed + {docs[i].id});
      var rest := GroupsFrom(docs, i + 1, c.1);
      GroupsFromShape(docs, i + 1, c.1);
      ShapeCons(docs, docs[i], c.0, rest);
    }
  }

  /** A new group headed by an input document, whose other members are input documents linked to it. */
  lemma ShapeCons(docs: seq<Doc>, head: Doc, members: seq<Doc>, rest: seq<seq<Doc>>)
    requires head in docs && ShapeFacts(docs, rest)
    requires forall x | x in members :: x in docs && Linked(head, x)
    ensures ShapeFacts(docs, [[head] + members] + rest)
  {
    var gs := [[head] + members] + rest;
    forall k | 0 <= k < |gs| ensures gs[k] != [] {
      if k > 0 { assert gs[k] == rest[k - 1]; }
    }
    forall k, x | 0 <= k < |gs| && x in gs[k] ensures x in docs {
      if k > 0 { assert gs[k] == rest[k - 1]; }
    }
    forall k, m | 0 <= k < |gs| && 1 <= m < |gs[k]| ensures Linked(gs[k][0], gs[k][m]) {
      if k > 0 {
        assert gs[k] == rest[k - 1];
      } else {
        assert gs[0][m] == members[m - 1];
      }
    }
  }

  /** Ids never repeat, avoid those processed before, and cover every document from `i` on. */
  ghost predicate IdFacts(docs: seq<Doc>, i: nat, processed: set<string>, gs: seq<seq<Doc>>)
  {
    && DistinctIds(Flatten(gs))
    && Ids(Flatten(gs)) !! processed
    && (forall m | i <= m < |docs| :: docs[m].id in processed + Ids(Flatten(gs)))
  }

  lemma {:induction false} GroupsFromIds(docs: seq<Doc>, i: nat, processed: set<string>)
    ensures IdFacts(docs, i, processed, GroupsFrom(docs, i, processed))
    decreases |docs| - i
  {
    if i >= |docs| {
    } else if docs[i].id in processed {
      GroupsFromIds(docs, i + 1, processed);
    } else {
      GroupsFromStep(docs, i, processed);
      var c := Collect(docs[i], docs, processed + {docs[i].id});
      var g0 := [docs[i]] + c.0;
      var rest := GroupsFrom(docs, i + 1, c.1);
      var gs := [g0] + rest;
      GroupsFromIds(docs, i + 1, c.1);
      assert gs[1..] == rest;
      assert Flatten(gs) == g0 + Flatten(rest);
      IdsAppend(g0, Flatten(rest));
      DistinctAppend(g0, Flatten(rest));
      assert docs[i].id in Ids(g0);
    }
  }

  /** A document linked to a group's first, whose id is neither processed before nor in an earlier group, is in that group by id. */
  ghost predicate ClosureFacts(docs: seq<Doc>, processed: set<string>, gs: seq<seq<Doc>>)
  {
    forall k, x | 0 <= k < |gs| && gs[k] != [] && x in docs && Linked(gs[k][0], x) && x.id !in processed && EarlierGroupsLack(gs, k, x.id)
      :: x.id in Ids(gs[k])
  }

  lemma {:induction false} GroupsFromClosure(docs: seq<Doc>, i: nat, processed: set<string>)
    ensures ClosureFacts(docs, processed, GroupsFrom(docs, i, processed))
    decreases |docs| - i
  {
    if i >= |docs| {
    } else if docs[i].id in processed {
      GroupsFromClosure(docs, i + 1, processed);
    } else {
      GroupsFromStep(docs, i, processed);
      var c := Collect(docs[i], docs, processed + {docs[i].id});
      var g0 := [docs[i]] + c.0;
      var rest := GroupsFrom(docs, i + 1, c.1);
      var gs := [g0] + rest;
      GroupsFromClosure(docs, i + 1, c.1);
      assert forall x | x in docs && Linked(docs[i], x) && x.id !in processed :: x.id in Ids(g0);
      ClosureCons(docs, processed, g0, rest, c.1);
    }
  }

  /** Closure of a new first group, added in front of groups closed under the ids processed after it. */
  lemma ClosureCons(docs: seq<Doc>, processed: set<string>, g0: seq<Doc>, rest: seq<seq<Doc>>, after: set<string>)
    requires g0 != [] && after == processed + Ids(g0)
    requires forall x | x in docs && Linked(g0[0], x) && x.id !in processed :: x.id in Ids(g0)
    requires ClosureFacts(docs, after, rest)
    ensures ClosureFacts(docs, processed, [g0] + rest)
  {
    var gs := [g0] + rest;
    forall k, x | 0 <= k < |gs| && gs[k] != [] && x in docs && Linked(gs[k][0], x) && x.id !in processed && EarlierGroupsLack(gs, k, x.id)
      ensures x.id in Ids(gs[k])
    {
      if k > 0 {
        assert gs[k] == rest[k - 1];
        assert x.id !in Ids(gs[0]);
        assert EarlierGroupsLack(rest, k - 1, x.id) by {
          forall j | 0 <= j < k - 1 && j < |rest| ensures x.id !in Ids(rest[j]) {
            assert rest[j] == gs[j + 1];
          }
        }
      }
    }
  }

  /** The grouping of any list of documents meets the promises above. */
  lemma GroupingIsTranslationGrouping(docs: seq<Doc>)
    ensures IsTranslationGrouping(docs, Grouping(docs))
  {
    var gs := Grouping(docs);
    GroupsFromShape(docs, 0, {});
    GroupsFromIds(docs, 0, {});
    GroupsFromClosure(docs, 0, {});
    assert Ids(Flatten(gs)) <= Ids(docs);
    forall id | id in Ids(docs) ensures id in Ids(Flatten(gs)) {
      var d :| d in docs && d.id == id;
      var m :| 0 <= m < |docs| && docs[m] == d;
    }
  }

  /** With distinct ids, a document is in the group that holds its id. */
  lemma MemberById(docs: seq<Doc>, gs: seq<seq<Doc>>, k: int, x: Doc)
    requires IsTranslationGrouping(docs, gs) && DistinctIds(docs)
    requires 0 <= k < |gs| && x in docs && x.id in Ids(gs[k])
    ensures x in gs[k]
  {
    var y :| y in gs[k] && y.id == x.id;
    assert y in docs;
    var a :| 0 <= a < |docs| && docs[a] == x;
    var b :| 0 <= b < |docs| && docs[b] == y;
    assert a == b;
  }

  /** An id lies in one group only. */
  lemma {:induction false} IdInOneGroup(gs: seq<seq<Doc>>, k: int, id: string)
    requires DistinctIds(Flatten(gs))
    requires 0 <= k < |gs| && id in Ids(gs[k])
    ensures forall j | 0 <= j < |gs| && j != k :: id !in Ids(gs[j])
  {
    assert Flatten(gs) == gs[0] + Flatten(gs[1..]);
    DistinctSplit(gs[0], Flatten(gs[1..]));
    forall j | 1 <= j < |gs| ensures Ids(gs[j]) <= Ids(Flatten(gs[1..])) {
      assert gs[j] == gs[1..][j - 1];
    }
    if k > 0 {
      assert gs[k] == gs[1..][k - 1];
      IdInOneGroup(gs[1..], k - 1, id);
      forall j | 1 <= j < |gs| && j != k ensures id !in Ids(gs[j]) {
        assert gs[j] == gs[1..][j - 1];
      }
    }
  }

  /** Every document lies in some group. */
  lemma SomeGroupHolds(docs: seq<Doc>, gs: seq<seq<Doc>>, x: Doc) returns (k: int)
    requires IsTranslationGrouping(docs, gs) && DistinctIds(docs) && x in docs
    ensures 0 <= k < |gs| && x in gs[k]
  {
    assert x.id in Ids(Flatten(gs));
    var y :| y in Flatten(gs) && y.id == x.id;
    k :| 0 <= k < |gs| && y in gs[k];
    MemberById(docs, gs, k, x);
  }

  /** No document lies in two groups. */
  lemma GroupsAreDisjoint(docs: seq<Doc>, gs: seq<seq<Doc>>, j: int, k: int, x: Doc)
    requires IsTranslationGrouping(docs, gs)
    requires 0 <= j < |gs| && 0 <= k < |gs| && x in gs[j] && x in gs[k]
    ensures j == k
  {
    IdInOneGroup(gs, j, x.id);
  }

  /** If a group holds one of two documents that name each other, and no earlier group holds the other's id, it holds both. */
  lemma PartnerJoinsGroup(docs: seq<Doc>, gs: seq<seq<Doc>>, a: Doc, b: Doc, ka: int)
    requires IsTranslationGrouping(docs, gs) && DistinctIds(docs)
    requires forall d | d in docs :: d.id != ""
    requires a in docs && b in docs && a.translationRef == Some(b.id) && b.translationRef == Some(a.id)
    requires 0 <= ka < |gs| && a in gs[ka] && EarlierGroupsLack(gs, ka, b.id)
    ensures b in gs[ka]
  {
    var s := gs[ka][0];
    assert s in docs;
    if s == a || a.translationRef != Some(s.id) {
      assert Linked(s, b) by {
        if s != a {
          var m :| 0 <= m < |gs[ka]| && gs[ka][m] == a;
          assert m != 0;
          assert Linked(s, a);
        }
      }
      assert b.id in Ids(gs[ka]);
      MemberById(docs, gs, ka, b);
    } else {
      var p :| 0 <= p < |docs| && docs[p] == s;
      var q :| 0 <= q < |docs| && docs[q] == b;
      assert p == q;
    }
  }

  /** Two documents that name each other end up in the same group (ids distinct and non-empty). */
  lemma MutualReferencesShareGroup(docs: seq<Doc>, a: Doc, b: Doc)
    requires DistinctIds(docs) && forall d | d in docs :: d.id != ""
    requires a in docs && b in docs && a.translationRef == Some(b.id) && b.translationRef == Some(a.id)
    ensures exists k :: 0 <= k < |Grouping(docs)| && a in Grouping(docs)[k] && b in Grouping(docs)[k]
  {
    var gs := Grouping(docs);
    GroupingIsTranslationGrouping(docs);
    var ka := SomeGroupHolds(docs, gs, a);
    var kb := SomeGroupHolds(docs, gs, b);
    if ka <= kb {
      IdInOneGroup(gs, kb, b.id);
      PartnerJoinsGroup(docs, gs, a, b, ka);
    } else {
      IdInOneGroup(gs, ka, a.id);
      PartnerJoinsGroup(docs, gs, b, a, kb);
    }
  }

  /** With distinct ids, a document that names nothing and that nothing names forms a group of its own. */
  lemma UnlinkedDocumentAlone(docs: seq<Doc>, d: Doc)
    requires DistinctIds(docs) && d in docs
    requires d.translationRef.None? && forall x | x in docs :: x.translationRef != Some(d.id)
    ensures [d] in Grouping(docs)
  {
    var gs := Grouping(docs);
    GroupingIsTranslationGrouping(docs);
    var k := SomeGroupHolds(docs, gs, d);
    assert gs[k][0] in docs && !Linked(gs[k][0], d);
    var m :| 0 <= m < |gs[k]| && gs[k][m] == d;
    assert m == 0;
    assert forall x | x in docs :: !Linked(d, x);
    var last := gs[k][|gs[k]| - 1];
    assert last in docs;
    assert |gs[k]| == 1;
    assert gs[k] == [d];
  }

  /** Every document of a list with distinct ids appears exactly once over all groups. */
  lemma EveryDocumentOnce(docs: seq<Doc>)
    requires DistinctIds(docs)
    ensures multiset(Flatten(Grouping(docs))) == multiset(docs)
  {
    var gs := Grouping(docs);
    GroupingIsTranslationGrouping(docs);
    var f := Flatten(gs);
    forall x | x in docs ensures x in f {
      var k := SomeGroupHolds(docs, gs, x);
    }
    DistinctMultiset(f);
    DistinctMultiset(docs);
  }

  /**
   * `idx` gives, for each group of `gs`, the position from `lo` on of the
   * input document that starts it, and the positions increase.
   */
  ghost predicate SeedsAt(docs: seq<Doc>, gs: seq<seq<Doc>>, idx: seq<int>, lo: nat)
  {
    && |idx| == |gs|
    && (forall k | 0 <= k < |idx| :: lo <= idx[k] < |docs| && gs[k] != [] && gs[k][0] == docs[idx[k]])
    && (forall a, b | 0 <= a < b < |idx| :: idx[a] < idx[b])
  }

  /** A group started by document `i` goes in front of groups started after it. */
  lemma SeedsAtCons(docs: seq<Doc>, first: seq<Doc>, gs: seq<seq<Doc>>, idx: seq<int>, i: nat)
    requires i < |docs| && first != [] && first[0] == docs[i]
    requires SeedsAt(docs, gs, idx, i + 1)
    ensures SeedsAt(docs, [first] + gs, [i] + idx, i)
  {
    var g, x := [first] + gs, [i] + idx;
    forall k | 1 <= k < |x| ensures g[k] == gs[k - 1] && x[k] == idx[k - 1] {
    }
  }

  /** The positions in the input of the groups' first documents, from document `i` on. */
  lemma {:induction false} SeedPositions(docs: seq<Doc>, i: nat, processed: set<string>) returns (idx: seq<int>)
    ensures SeedsAt(docs, GroupsFrom(docs, i, processed), idx, i)
    decreases |docs| - i
  {
    if i >= |docs| {
      idx := [];
    } else if docs[i].id in processed {
      idx := SeedPositions(docs, i + 1, processed);
    } else {
      var c := Collect(docs[i], docs, processed + {docs[i].id});
      var rest := SeedPositions(docs, i + 1, c.1);
      assert GroupsFrom(docs, i, processed) == [[docs[i]] + c.0] + GroupsFrom(docs, i + 1, c.1);
      SeedsAtCons(docs, [docs[i]] + c.0, GroupsFrom(docs, i + 1, c.1), rest, i);
      idx := [i] + rest;
    }
  }

  /** The groups' first documents appear in the order of the input. */
  lemma SeedsInInputOrder(docs: seq<Doc>)
    ensures exists idx: seq<int> ::
              && |idx| == |Grouping(docs)|
              && (forall a, b | 0 <= a < b < |idx| :: idx[a] < idx[b])
              && (forall k | 0 <= k < |idx| :: 0 <= idx[k] < |docs| && Grouping(docs)[k] != [] && Grouping(docs)[k][0] == docs[idx[k]])
  {
    var idx := SeedPositions(docs, 0, {});
  }

  /** Of several documents sharing an id, at most one is kept: the grouping never holds the id twice. */
  lemma DuplicateIdKeptOnce(docs: seq<Doc>, x: Doc, y: Doc)
    requires x in Flatten(Grouping(docs)) && y in Flatten(Grouping(docs)) && x.id == y.id
    ensures x == y
  {
    GroupingIsTranslationGrouping(docs);
    var f := Flatten(Grouping(docs));
    var p :| 0 <= p < |f| && f[p] == x;
    var q :| 0 <= q < |f| && f[q] == y;
    assert p == q;
  }

  /** A list with distinct ids holds each of its elements once. */
  lemma {:induction false} DistinctMultiset(s: seq<Doc>)
    requires DistinctIds(s)
    ensures forall x :: multiset(s)[x] == if x in s then 1 else 0
  {
    if s != [] {
      DistinctMultiset(s[1..]);
      assert s == [s[0]] + s[1..];
      assert s[0] !in s[1..] by {
        forall q | 0 <= q < |s| - 1 ensures s[1..][q].id != s[0].id {
          assert s[1..][q] == s[q + 1];
        }
      }
    }
  }

  // ---------------------------------------------------------------------
  // getAvailableLanguages and hasTranslationInGroup
  // ---------------------------------------------------------------------

  /** `documents.map(doc => doc.language)`. */
  function LanguagesOf(docs: seq<Doc>): (r: seq<string>)
    ensures |r| == |docs| && forall i | 0 <= i < |docs| :: r[i] == docs[i].language
  {
    if docs == [] then [] else [docs[0].language] + LanguagesOf(docs[1..])
  }

  /** No value occurs twice. */
  predicate NoDup(s: seq<string>)
  {
    forall i, j | 0 <= i < j < |s| :: s[i] != s[j]
  }

  /** `[...new Set(s)]`: each value once, in order of first occurrence. */
  function Dedupe(s: seq<string>): (r: seq<string>)
    ensures NoDup(r)
    ensures forall x :: x in r <==> x in s
  {
    if s == [] then []
    else
      var r := Dedupe(s[..|s| - 1]);
      assert forall x :: x in s <==> x in s[..|s| - 1] || x == s[|s| - 1] by {
        assert s == s[..|s| - 1] + [s[|s| - 1]];
      }
      if s[|s| - 1] in r then r else r + [s[|s| - 1]]
  }

  /** `a` does not come after `b` in the default sort order. */
  predicate LexLeq(a: string, b: string)
  {
    a == b || LexLess(a, b)
  }

  /** In the default sort order. */
  predicate Ascending(s: seq<string>)
  {
    forall i, j | 0 <= i < j < |s| :: LexLeq(s[i], s[j])
  }

  /** One insertion step of the sort: `x` goes before the first element it does not follow. */
  function InsertSorted(x: string, s: seq<string>): (r: seq<string>)
    ensures multiset(r) == multiset(s) + multiset{x}
  {
    if s == [] then [x]
    else if LexLeq(x, s[0]) then [x] + s
    else
      assert s == [s[0]] + s[1..];
      [s[0]] + InsertSorted(x, s[1..])
  }

  /** `.sort()` without a comparator on strings: a permutation of its input. */
  function SortStrings(s: seq<string>): (r: seq<string>)
    ensures multiset(r) == multiset(s)
  {
    if s == [] then []
    else
      assert s == [s[0]] + s[1..];
      InsertSorted(s[0], SortStrings(s[1..]))
  }

  lemma {:induction false} InsertSortedAscending(x: string, s: seq<string>)
    requires Ascending(s)
    ensures Ascending(InsertSorted(x, s))
  {
    if s != [] {
      if LexLeq(x, s[0]) {
        forall j | 1 <= j < |s| + 1 ensures LexLeq(x, ([x] + s)[j]) {
          if x != s[0] && s[0] != s[j - 1] {
            LexLessTransitive(x, s[0], s[j - 1]);
          }
        }
      } else {
        LexLessTotal(x, s[0]);
        InsertSortedAscending(x, s[1..]);
        var t := InsertSorted(x, s[1..]);
        forall j | 0 <= j < |t| ensures LexLeq(s[0], t[j]) {
          assert t[j] in multiset(t);
          assert t[j] == x || t[j] in s[1..];
        }
      }
    }
  }

  lemma {:induction false} SortStringsAscending(s: seq<string>)
    ensures Ascending(SortStrings(s))
  {
    if s != [] {
      SortStringsAscending(s[1..]);
      InsertSortedAscending(s[0], SortStrings(s[1..]));
    }
  }

  /** A permutation of a list without repeats has none either. */
  lemma PermutationNoDup(a: seq<string>, b: seq<string>)
    requires NoDup(a) && multiset(a) == multiset(b)
    ensures NoDup(b)
  {
    forall i, j | 0 <= i < j < |b| ensures b[i] != b[j] {
      var x := b[i];
      assert b == b[..j] + [b[j]] + b[j + 1..];
      assert x in b[..j];
      assert multiset(b)[x] >= 2 ==> multiset(a)[x] >= 2;
      NoDupCount(a, x);
    }
  }

  /** In a list without repeats, every value occurs at most once. */
  lemma {:induction false} NoDupCount(a: seq<string>, x: string)
    requires NoDup(a)
    ensures multiset(a)[x] <= 1
  {
    if a != [] {
      assert a == [a[0]] + a[1..];
      NoDupCount(a[1..], x);
      assert a[0] !in a[1..] by {
        forall k | 0 <= k < |a| - 1 ensures a[1..][k] != a[0] {
          assert a[1..][k] == a[k + 1];
        }
      }
    }
  }

  /** Strictly ascending: ascending with no repeats. */
  predicate StrictlyAscending(s: seq<string>)
  {
    forall i, j | 0 <= i < j < |s| :: LexLess(s[i], s[j])
  }

  /** `getAvailableLanguages`: every language of the documents, once each, in sort order. */
  function GetAvailableLanguages(docs: seq<Doc>): (r: seq<string>)
    ensures StrictlyAscending(r)
    ensures forall x :: x in r <==> exists i :: 0 <= i < |docs| && docs[i].language == x
  {
    var names := LanguagesOf(docs);
    var unique := Dedupe(names);
    SortStringsAscending(unique);
    PermutationNoDup(unique, SortStrings(unique));
    SortedMembers(unique);
    LanguagesOfMembers(docs);
    SortStrings(unique)
  }

  /** Sorting keeps exactly the members. */
  lemma SortedMembers(s: seq<string>)
    ensures forall x :: x in SortStrings(s) <==> x in s
  {
    forall x ensures x in SortStrings(s) <==> x in s {
      assert x in SortStrings(s) <==> x in multiset(SortStrings(s));
    }
  }

  /** The languages listed are those of the documents. */
  lemma LanguagesOfMembers(docs: seq<Doc>)
    ensures forall x :: x in LanguagesOf(docs) <==> exists i :: 0 <= i < |docs| && docs[i].language == x
  {
    var names := LanguagesOf(docs);
    forall x ensures x in names <==> exists i :: 0 <= i < |docs| && docs[i].language == x {
      if x in names {
        var i :| 0 <= i < |names| && names[i] == x;
      }
    }
  }

  /** Two strictly ascending lists with the same elements are the same list. */
  lemma {:induction false} StrictlyAscendingUnique(a: seq<string>, b: seq<string>)
    requires StrictlyAscending(a) && StrictlyAscending(b)
    requires forall x :: x in a <==> x in b
    ensures a == b
  {
    if a != [] {
      assert a[0] in b;
    }
    if b != [] {
      assert b[0] in a;
    }
    if a != [] && b != [] {
      assert a[0] == b[0] by {
        LexLessIrreflexive(a[0]);
        if a[0] != b[0] {
          assert b[0] in a && a[0] in b;
          LexLessTransitive(a[0], b[0], a[0]);
        }
      }
      forall x ensures x in a[1..] <==> x in b[1..] {
        if x in a[1..] {
          var k :| 0 <= k < |a| - 1 && a[1..][k] == x;
          assert LexLess(a[0], a[k + 1]);
          LexLessIrreflexive(x);
        }
        if x in b[1..] {
          var k :| 0 <= k < |b| - 1 && b[1..][k] == x;
          assert LexLess(b[0], b[k + 1]);
          LexLessIrreflexive(x);
        }
        assert x in a <==> x == a[0] || x in a[1..];
        assert x in b <==> x == b[0] || x in b[1..];
      }
      StrictlyAscendingUnique(a[1..], b[1..]);
      assert a == [a[0]] + a[1..] && b == [b[0]] + b[1..];
    }
  }

  /** `hasTranslationInGroup`: some document is in `language`. */
  function HasTranslationInGroup(docs: seq<Doc>, language: string): (r: bool)
    ensures r <==> exists i :: 0 <= i < |docs| && docs[i].language == language
  {
    if docs == [] then false
    else if docs[0].language == language then true
    else
      var r := HasTranslationInGroup(docs[1..], language);
      assert r <==> exists i :: 1 <= i < |docs| && docs[i].language == language by {
        if r {
          var i :| 0 <= i < |docs| - 1 && docs[1..][i].language == language;
          assert docs[i + 1].language == language;
        }
        if exists i :: 1 <= i < |docs| && docs[i].language == language {
          var i :| 1 <= i < |docs| && docs[i].language == language;
          assert docs[1..][i - 1].language == language;
        }
      }
      r
  }

  /** The languages are determined by which languages occur, not by order or repetition. */
  lemma AvailableLanguagesDependOnlyOnLanguages(a: seq<Doc>, b: seq<Doc>)
    requires forall x :: HasTranslationInGroup(a, x) <==> HasTranslationInGroup(b, x)
    ensures GetAvailableLanguages(a) == GetAvailableLanguages(b)
  {
    var ra := GetAvailableLanguages(a);
    var rb := GetAvailableLanguages(b);
    forall x ensures x in ra <==> x in rb {
      assert HasTranslationInGroup(a, x) <==> HasTranslationInGroup(b, x);
    }
    StrictlyAscendingUnique(ra, rb);
  }

  /** Any strictly ascending list of exactly the group's languages is what `getAvailableLanguages` returns. */
  lemma AvailableLanguagesAre(docs: seq<Doc>, r: seq<string>)
    requires StrictlyAscending(r)
    requires forall x :: x in r <==> HasTranslationInGroup(docs, x)
    ensures GetAvailableLanguages(docs) == r
  {
    StrictlyAscendingUnique(GetAvailableLanguages(docs), r);
  }

  /** A language is in the group exactly when it is among the available languages. */
  lemma HasTranslationMeansAvailable(docs: seq<Doc>, language: string)
    ensures HasTranslationInGroup(docs, language) <==> language in GetAvailableLanguages(docs)
  {
  }

  /** When the group has the language, choosing a document for it gives a document in it. */
  lemma HasTranslationMeansChosen(docs: seq<Doc>, target: Lang)
    ensures HasTranslationInGroup(docs, Code(target)) <==>
              GetDocumentByLanguage(docs, target).Some? && GetDocumentByLanguage(docs, target).value.language == Code(target)
  {
    if HasTranslationInGroup(docs, Code(target)) {
      var i :| 0 <= i < |docs| && docs[i].language == Code(target);
      assert FindLanguage(docs, Code(target)).Some?;
    }
  }

  // ---------------------------------------------------------------------
  // createTranslationQuery
  // ---------------------------------------------------------------------

  /** The fields every translation query asks for. */
  const BaseFields: seq<string> := ["_id", "_type", "language", "translation"]

  /** The query's filter on the document type. */
  function TypeFilter(documentType: string): string
  {
    "*[_type == \"" + documentType + "\"]"
  }

  /** The projection of the referenced translation. */
  const TranslationProjection: string := "translation->{_id, language}"

  /** `createTranslationQuery`: the type filter, then the base and extra fields, then the referenced translation's id and language. */
  function CreateTranslationQuery(documentType: string, fields: seq<string>): (q: string)
    ensures StartsWith(q, TypeFilter(documentType))
  {
    var prefix := TypeFilter(documentType) + " {\n    ";
    assert (prefix + Join(BaseFields + fields, ", ") + ",\n    " + TranslationProjection + "\n  }")[..|TypeFilter(documentType)|]
           == TypeFilter(documentType);
    prefix + Join(BaseFields + fields, ", ") + ",\n    " + TranslationProjection + "\n  }"
  }

  /** The three parts of the query: before the field list, the field list, after it. */
  lemma QueryParts(documentType: string, fields: seq<string>)
    ensures CreateTranslationQuery(documentType, fields) ==
              (TypeFilter(documentType) + " {\n    ") + Join(BaseFields + fields, ", ") + (",\n    " + TranslationProjection + "\n  }")
  {
  }

  /** The base fields joined. */
  lemma BaseFieldsJoined()
    ensures Join(BaseFields, ", ") == "_id, _type, language, translation"
  {
    JoinCons("language", ["translation"], ", ");
    LastTwoFields();
    JoinCons("_type", ["language", "translation"], ", ");
    LastThreeFields();
    JoinCons("_id", ["_type", "language", "translation"], ", ");
    AllBaseFields();
  }

  lemma LastTwoFields()
    ensures "language" + ", " + "translation" == "language, translation"
  { }

  lemma LastThreeFields()
    ensures "_type" + ", " + "language, translation" == "_type, language, translation"
  { }

  lemma AllBaseFields()
    ensures "_id" + ", " + "_type, language, translation" == "_id, _type, language, translation"
  { }

  /** Joining a part in front of a non-empty list puts one separator after it. */
  lemma JoinCons(a: string, rest: seq<string>, sep: string)
    requires rest != []
    ensures Join([a] + rest, sep) == a + sep + Join(rest, sep)
  {
    assert ([a] + rest)[1..] == rest;
  }

  /** The field list is the base fields, then the extra fields after a comma. */
  lemma FieldList(fields: seq<string>)
    ensures Join(BaseFields + fields, ", ") ==
              "_id, _type, language, translation" + (if fields == [] then "" else ", " + Join(fields, ", "))
  {
    BaseFieldsJoined();
    if fields == [] {
      assert BaseFields + fields == BaseFields;
    } else {
      JoinAppend(BaseFields, fields, ", ");
    }
  }

  /** The middle part of a concatenation occurs right after the first part. */
  lemma OccursInMiddle(a: string, b: string, c: string)
    ensures OccursAt(a + b + c, b, |a|) && Contains(a + b + c, b)
  {
    assert (a + b + c)[|a|..|a| + |b|] == b;
    assert OccursAt(a + b + c, b, |a|);
  }

  /** The query lists the base fields, then the extra fields after a comma, right after the type filter and the opening brace. */
  lemma QueryListsFields(documentType: string, fields: seq<string>)
    ensures var listed := "_id, _type, language, translation" + (if fields == [] then "" else ", " + Join(fields, ", "));
            && OccursAt(CreateTranslationQuery(documentType, fields), listed, |TypeFilter(documentType)| + 7)
            && Contains(CreateTranslationQuery(documentType, fields), listed)
  {
    QueryParts(documentType, fields);
    FieldList(fields);
    OccursInMiddle(TypeFilter(documentType) + " {\n    ", Join(BaseFields + fields, ", "), ",\n    " + TranslationProjection + "\n  }");
  }

  /** The query ends with the projection of the referenced translation. */
  lemma QueryProjectsTranslation(documentType: string, fields: seq<string>)
    ensures Contains(CreateTranslationQuery(documentType, fields), TranslationProjection)
  {
    var before := TypeFilter(documentType) + " {\n    " + Join(BaseFields + fields, ", ") + ",\n    ";
    assert CreateTranslationQuery(documentType, fields) == before + TranslationProjection + "\n  }";
    OccursInMiddle(before, TranslationProjection, "\n  }");
  }

  /** The first double quote of `s` is at `i` when `s[i]` is one and nothing before it is. */
  lemma FirstQuoteAt(s: string, i: nat)
    requires i < |s| && s[i] == '"'
    requires forall j :: 0 <= j < i ==> s[j] != '"'
    ensures IndexOf(s, "\"") == Some(i)
  {
    assert s[i..i + 1] == [s[i]];
    forall j | 0 <= j < i ensures !OccursAt(s, "\"", j) {
      assert s[j..j + 1] == [s[j]];
    }
    FirstOccurrence(s, "\"", i);
  }

  /** After the query's first double quote come the document type and a closing double quote. */
  lemma QueryAfterFirstQuote(documentType: string, fields: seq<string>)
    ensures var q := CreateTranslationQuery(documentType, fields);
            |q| > 12 + |documentType| && After(q, "\"") == Some(q[12..])
            && q[12..][..|documentType|] == documentType && q[12..][|documentType|] == '"'
  {
    var q := CreateTranslationQuery(documentType, fields);
    var head := "*[_type == ";
    assert |head| == 11;
    assert q[..|TypeFilter(documentType)|] == head + "\"" + documentType + "\"]";
    forall j | 0 <= j < 11 ensures q[j] != '"' {
      assert q[j] == head[j];
    }
    FirstQuoteAt(q, 11);
    assert q[12..][..|documentType|] == documentType;
  }

  /** The document type comes back out as the text between the first two double quotes, when it holds none itself. */
  lemma QueryTypeRoundTrip(documentType: string, fields: seq<string>)
    requires '"' !in documentType
    ensures var q := CreateTranslationQuery(documentType, fields);
            After(q, "\"").Some? && Before(After(q, "\"").value, "\"") == documentType
  {
    QueryAfterFirstQuote(documentType, fields);
    var tail := CreateTranslationQuery(documentType, fields)[12..];
    forall j | 0 <= j < |documentType| ensures tail[j] != '"' {
      assert tail[j] == tail[..|documentType|][j];
    }
    FirstQuoteAt(tail, |documentType|);
  }

  // ---------------------------------------------------------------------
  // buildLocalizedRoute and parseLocalizedRoute
  // ---------------------------------------------------------------------

  /** `buildLocalizedRoute`: the fallback language is not prefixed; French is. */
  function BuildLocalizedRoute(slug: string, l: Lang): (r: string)
    ensures l == GetFallbackLanguage() ==> r == "/" + slug
    ensures l != GetFallbackLanguage() ==> r == "/" + Code(l) + "/" + slug
  {
    if l == GetFallbackLanguage() then "/" + slug else "/" + Code(l) + "/" + slug
  }

  /** The language and base path `parseLocalizedRoute` returns. */
  datatype LocalizedRoute = LocalizedRoute(language: Lang, basePath: string)

  /**
   * `parseLocalizedRoute`: a leading language segment is taken off, and the
   * base path is `/` followed by the remaining segments; any other path is the
   * fallback language's and is kept as it is.
   */
  function ParseLocalizedRoute(p: string): (r: LocalizedRoute)
    ensures r.language == CurrentLanguage(p)
    ensures LanguageFromPath(p).None? ==> r.basePath == p
  {
    var segs := PathSegments(p);
    if |segs| > 0 && FromCode(segs[0]).Some? then
      LocalizedRoute(FromCode(segs[0]).value, "/" + Join(segs[1..], "/"))
    else
      LocalizedRoute(GetFallbackLanguage(), p)
  }

  /**
   * For a path with a language, the base path starts with `/` and its segments
   * are the path's segments after the language one.
   */
  lemma ParsedBasePath(p: string)
    requires LanguageFromPath(p).Some?
    ensures var b := ParseLocalizedRoute(p).basePath;
            |b| > 0 && b[0] == '/' && PathSegments(b) == PathSegments(p)[1..]
  {
    RootedJoinSegments(PathSegments(p)[1..]);
  }

  /** `/` followed by non-empty, slash-free segments joined by `/` has exactly those segments. */
  lemma RootedJoinSegments(xs: seq<string>)
    requires forall i :: 0 <= i < |xs| ==> xs[i] != "" && '/' !in xs[i]
    ensures PathSegments("/" + Join(xs, "/")) == xs
  {
    var s := Join(xs, "/");
    assert "/" + s == [] + ['/'] + s;
    SplitAfterPiece([], '/', s);
    NonEmptyAppend([""], Split(s, '/'));
    assert NonEmpty([""]) == [];
    if xs == [] {
      assert Split(s, '/') == [""];
    } else {
      assert "/" == ['/'];
      SplitJoin(xs, '/');
      NonEmptyOfNonEmpty(xs);
    }
  }

  /** A slug whose `/`-separated pieces are all non-empty (or the empty slug). */
  predicate CleanSlug(slug: string)
  {
    slug == "" || forall i :: 0 <= i < |Split(slug, '/')| ==> Split(slug, '/')[i] != ""
  }

  /** The segments of `/code/slug` are the code, then the pieces of a clean slug. */
  lemma PrefixedSegments(code: string, slug: string)
    requires code != "" && '/' !in code && CleanSlug(slug)
    ensures PathSegments("/" + code + "/" + slug) == [code] + PathSegments("/" + slug)
    ensures PathSegments("/" + slug) == (if slug == "" then [] else Split(slug, '/'))
  {
    var p := "/" + code + "/" + slug;
    assert p == [] + ['/'] + (code + "/" + slug);
    SplitAfterPiece([], '/', code + "/" + slug);
    assert code + "/" + slug == code + ['/'] + slug;
    SplitAfterPiece(code, '/', slug);
    assert "/" + slug == [] + ['/'] + slug;
    SplitAfterPiece([], '/', slug);
    assert Split(p, '/') == [""] + ([code] + Split(slug, '/'));
    NonEmptyAppend([""], [code] + Split(slug, '/'));
    NonEmptyAppend([code], Split(slug, '/'));
    NonEmptyAppend([""], Split(slug, '/'));
    assert [""][1..] == [] && [code][1..] == [];
    if slug == "" {
      assert Split(slug, '/') == [""];
    } else {
      NonEmptyOfNonEmpty(Split(slug, '/'));
    }
  }

  /** A French route built from a clean slug parses back to French and `/slug`. */
  lemma FrenchRouteRoundTrip(slug: string)
    requires CleanSlug(slug)
    ensures ParseLocalizedRoute(BuildLocalizedRoute(slug, Fr)) == LocalizedRoute(Fr, "/" + slug)
  {
    var p := BuildLocalizedRoute(slug, Fr);
    PrefixedSegments("fr", slug);
    assert p == "/" + "fr" + "/" + slug;
    var segs := PathSegments(p);
    assert segs[0] == "fr" && segs[1..] == PathSegments("/" + slug);
    assert Join(segs[1..], "/") == slug by {
      if slug != "" {
        assert Join(Split(slug, '/'), "/") == slug;
      }
    }
  }

  /** An English route parses back to English and `/slug` unless the slug itself starts with a language segment. */
  lemma EnglishRouteRoundTrip(slug: string)
    requires !IsLanguagePath("/" + slug)
    ensures ParseLocalizedRoute(BuildLocalizedRoute(slug, En)) == LocalizedRoute(En, "/" + slug)
  {
  }

  /** An English page whose slug is `fr` cannot be told apart from the French home page. */
  lemma EnglishSlugNamedAfterLanguage()
    ensures BuildLocalizedRoute("fr", En) == "/fr"
    ensures ParseLocalizedRoute("/fr") == LocalizedRoute(Fr, "/")
    ensures ParseLocalizedRoute(BuildLocalizedRoute("", Fr)) == LocalizedRoute(Fr, "/")
  {
    PrefixedSegments("fr", "");
    assert "/" + "fr" + "/" + "" == "/fr/";
    SlugFrench();
  }

  /** `/fr`: the French root. */
  lemma SlugFrench()
    ensures ParseLocalizedRoute("/fr") == LocalizedRoute(Fr, "/")
  {
    assert "/fr" == [] + ['/'] + "fr";
    SplitAfterPiece([], '/', "fr");
    SplitWithoutSeparator("fr", '/');
    assert Split("/fr", '/') == ["", "fr"];
    assert PathSegments("/fr") == ["fr"];
  }

  /** Built routes from the site's route tests. */
  lemma BuildExamples()
    ensures BuildLocalizedRoute("about", En) == "/about" && BuildLocalizedRoute("contact", En) == "/contact"
    ensures BuildLocalizedRoute("about", Fr) == "/fr/about" && BuildLocalizedRoute("contact", Fr) == "/fr/contact"
  {
  }

  /** `/code/slug` with a clean slug parses to the code's language and `/slug`, for English as for French. */
  lemma PrefixedPathParse(l: Lang, slug: string)
    requires CleanSlug(slug)
    ensures ParseLocalizedRoute("/" + Code(l) + "/" + slug) == LocalizedRoute(l, "/" + slug)
  {
    var p := "/" + Code(l) + "/" + slug;
    PrefixedSegments(Code(l), slug);
    var segs := PathSegments(p);
    assert segs[0] == Code(l) && segs[1..] == PathSegments("/" + slug);
    assert FromCode(segs[0]) == Some(l);
    assert Join(segs[1..], "/") == slug by {
      if slug != "" {
        assert Join(Split(slug, '/'), "/") == slug;
      }
    }
  }

  /** `/en/about`: an explicit English prefix is taken off too. */
  lemma EnglishAboutPrefixedExample()
    ensures ParseLocalizedRoute("/en/about") == LocalizedRoute(En, "/about")
  {
    EnglishAboutPieces("/en/about", "/about");
  }

  /** The pieces of `/en/about`, kept apart from the literal goal. */
  lemma EnglishAboutPieces(p: string, base: string)
    requires p == "/en/about" && base == "/about"
    ensures ParseLocalizedRoute(p) == LocalizedRoute(En, base)
  {
    AboutIsClean();
    PrefixedPathParse(En, "about");
    assert "/" + Code(En) + "/" + "about" == p;
    assert "/" + "about" == base;
  }

  /** The segments of `/code/w` are the code followed by the non-empty pieces of `w`. */
  lemma SegmentsUnderCode(code: string, w: string)
    requires code != "" && '/' !in code
    ensures PathSegments("/" + code + "/" + w) == [code] + NonEmpty(Split(w, '/'))
  {
    assert "/" + code + "/" + w == [] + ['/'] + (code + ['/'] + w);
    SplitAfterPiece([], '/', code + ['/'] + w);
    SplitAfterPiece(code, '/', w);
    NonEmptyAppend([""], [code] + Split(w, '/'));
    NonEmptyAppend([code], Split(w, '/'));
    assert NonEmpty([""]) == [];
    assert NonEmpty([code]) == [code];
  }

  /** `x//y` splits into `x`, an empty piece and `y`. */
  lemma DoubledSlashPieces(x: string, y: string)
    requires '/' !in x && '/' !in y
    ensures Split(x + "//" + y, '/') == [x, "", y]
  {
    assert x + "//" + y == x + ['/'] + ([] + ['/'] + y);
    SplitAfterPiece(x, '/', [] + ['/'] + y);
    SplitAfterPiece([], '/', y);
    SplitWithoutSeparator(y, '/');
  }

  /** A doubled slash makes an empty piece, which the segment filter drops. */
  lemma DoubledSlashSegments(code: string, x: string, y: string)
    requires code != "" && x != "" && y != "" && '/' !in code && '/' !in x && '/' !in y
    ensures PathSegments("/" + code + "/" + x + "//" + y) == [code, x, y]
  {
    assert "/" + code + "/" + x + "//" + y == "/" + code + "/" + (x + "//" + y);
    SegmentsUnderCode(code, x + "//" + y);
    DoubledSlashPieces(x, y);
    assert [x, "", y] == [x] + ([""] + [y]);
    NonEmptyAppend([x], [""] + [y]);
    NonEmptyAppend([""], [y]);
    assert NonEmpty([""]) == [] && NonEmpty([x]) == [x] && NonEmpty([y]) == [y];
  }

  /** A path whose first segment is a language code parses to that language and the other segments. */
  lemma LanguageBranch(p: string, l: Lang, rest: seq<string>)
    requires PathSegments(p) == [Code(l)] + rest
    ensures ParseLocalizedRoute(p) == LocalizedRoute(l, "/" + Join(rest, "/"))
  {
    assert PathSegments(p)[1..] == rest;
  }

  /** A route with a doubled slash parses to the pieces joined by single slashes. */
  lemma DoubledSlashParse(l: Lang, x: string, y: string)
    requires x != "" && y != "" && '/' !in x && '/' !in y
    ensures ParseLocalizedRoute("/" + Code(l) + "/" + x + "//" + y) == LocalizedRoute(l, "/" + x + "/" + y)
  {
    var p := "/" + Code(l) + "/" + x + "//" + y;
    DoubledSlashSegments(Code(l), x, y);
    assert [Code(l), x, y] == [Code(l)] + [x, y];
    LanguageBranch(p, l, [x, y]);
    JoinCons(x, [y], "/");
    assert "/" + (x + "/" + y) == "/" + x + "/" + y;
  }

  /** `/fr/a//b`: empty segments vanish, so the base path is rebuilt as `/a/b`. */
  lemma DoubleSlashCollapses()
    ensures ParseLocalizedRoute("/fr/a//b") == LocalizedRoute(Fr, "/a/b")
  {
    DoubledSlashParse(Fr, "a", "b");
    assert "/" + Code(Fr) + "/" + "a" + "//" + "b" == "/fr/a//b";
    assert "/" + "a" + "/" + "b" == "/a/b";
  }

  /** Any path `/fr/slug` with a clean slug parses to French and `/slug`. */
  lemma FrenchPathParse(p: string, slug: string)
    requires p == "/fr/" + slug && CleanSlug(slug)
    ensures ParseLocalizedRoute(p) == LocalizedRoute(Fr, "/" + slug)
  {
    assert BuildLocalizedRoute(slug, Fr) == "/fr/" + slug;
    FrenchRouteRoundTrip(slug);
  }

  lemma AboutIsClean()
    ensures CleanSlug("about")
  {
    SplitWithoutSeparator("about", '/');
  }

  /** Two non-empty pieces without a `/`, joined by one, make a clean slug. */
  lemma CleanPair(slug: string, a: string, b: string)
    requires a != "" && b != "" && '/' !in a && '/' !in b && slug == a + "/" + b
    ensures CleanSlug(slug)
  {
    assert slug == a + ['/'] + b;
    SplitAfterPiece(a, '/', b);
    SplitWithoutSeparator(b, '/');
  }

  lemma BlogPostIsClean()
    ensures CleanSlug("blog/my-post")
  {
    CleanPair("blog/my-post", "blog", "my-post");
  }

  lemma AboutPathParts()
    ensures "/fr/about" == "/fr/" + "about" && "/about" == "/" + "about"
  {
  }

  /** `/fr/about` parses to French and `/about`. */
  lemma FrenchAboutExample()
    ensures ParseLocalizedRoute("/fr/about") == LocalizedRoute(Fr, "/about")
  {
    AboutIsClean();
    AboutPathParts();
    FrenchPathParse("/fr/about", "about");
  }

  lemma NestedPathParts()
    ensures "/fr/blog/my-post" == "/fr/" + "blog/my-post" && "/blog/my-post" == "/" + "blog/my-post"
  {
  }

  /** `/fr/blog/my-post` parses to French and `/blog/my-post`. */
  lemma FrenchNestedExample()
    ensures ParseLocalizedRoute("/fr/blog/my-post") == LocalizedRoute(Fr, "/blog/my-post")
  {
    BlogPostIsClean();
    NestedPathParts();
    FrenchPathParse("/fr/blog/my-post", "blog/my-post");
  }

  /** `/about` is an English path and keeps its base path. */
  lemma EnglishAboutExample()
    ensures ParseLocalizedRoute("/about") == LocalizedRoute(En, "/about")
  {
    assert "/about" == [] + ['/'] + "about";
    SplitAfterPiece([], '/', "about");
    SplitWithoutSeparator("about", '/');
    assert PathSegments("/about") == ["about"];
  }

  /** `/` is the English root. */
  lemma RootExample()
    ensures ParseLocalizedRoute("/") == LocalizedRoute(En, "/")
  {
    assert "/" == [] + ['/'] + [];
    SplitAfterPiece([], '/', []);
    assert PathSegments("/") == [];
  }
}
