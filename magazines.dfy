/**
 * The magazine lists of the home page and of the magazines page: the featured
 * list, the search filter, the category filter and the list of category
 * buttons.
 */
module Magazines {
  import opened Strings
  import opened Seqs

  /** A magazine as the API returns it; a missing `featured` reads as false. */
  datatype Magazine = Magazine(
    id: string, title: string, slug: string, about: string, content: string, author: string,
    date: string, readTime: string, category: string, coverImage: string, featured: bool)

  /**
   * The search test shared by both pages: the lower-cased query occurs in
   * the lower-cased title, author or about text.
   */
  predicate MatchesSearch(m: Magazine, query: string) {
    var q := Lower(query);
    Includes(Lower(m.title), q) || Includes(Lower(m.author), q) || Includes(Lower(m.about), q)
  }

  /** The category test of the magazines page: "ALL" lets everything through. */
  predicate MatchesCategory(m: Magazine, selectedCategory: string) {
    selectedCategory == "ALL" || m.category == selectedCategory
  }

  /** `filteredMagazines` of the magazines page: search AND category. */
  function FilteredMagazines(magazines: seq<Magazine>, query: string, selectedCategory: string): (r: seq<Magazine>)
    ensures SubsequenceOf(r, magazines)
    ensures forall m :: m in r <==> m in magazines && MatchesSearch(m, query) && MatchesCategory(m, selectedCategory)
    ensures forall m :: multiset(r)[m] == (if MatchesSearch(m, query) && MatchesCategory(m, selectedCategory)
                                           then multiset(magazines)[m] else 0)
  {
    Filter(magazines, (m: Magazine) => MatchesSearch(m, query) && MatchesCategory(m, selectedCategory))
  }

  /** `categories`: "ALL", then every magazine category once, in order of first appearance. */
  function Categories(magazines: seq<Magazine>): (r: seq<string>)
    ensures |r| >= 1 && r[0] == "ALL"
    ensures Distinct(r[1..])
    ensures forall c :: c in r[1..] <==> exists m :: m in magazines && m.category == c
  {
    var cats := seq(|magazines|, i requires 0 <= i < |magazines| => magazines[i].category);
    assert forall c :: (exists m :: m in magazines && m.category == c) ==> c in cats by {
      forall c, m | m in magazines && m.category == c ensures c in cats {
        var i :| 0 <= i < |magazines| && magazines[i] == m;
        assert cats[i] == c;
      }
    }
    ["ALL"] + Dedup(cats)
  }

  /** The category buttons come in the order in which their categories first appear. */
  lemma CategoriesInFirstAppearanceOrder(magazines: seq<Magazine>)
    ensures var cats := seq(|magazines|, i requires 0 <= i < |magazines| => magazines[i].category);
      var r := Categories(magazines);
      forall i, j :: 1 <= i < j < |r| ==> FirstIndex(cats, r[i]) < FirstIndex(cats, r[j])
  {
    var cats := seq(|magazines|, i requires 0 <= i < |magazines| => magazines[i].category);
    DedupOrder(cats);
    assert Categories(magazines)[1..] == Dedup(cats);
  }

  /** An empty query leaves exactly the magazines of the selected category. */
  lemma EmptyQueryFiltersByCategoryOnly(magazines: seq<Magazine>, selectedCategory: string)
    ensures FilteredMagazines(magazines, "", selectedCategory)
         == Filter(magazines, (m: Magazine) => MatchesCategory(m, selectedCategory))
  {
    forall m: Magazine ensures MatchesSearch(m, "") {
      IncludesEmpty(Lower(m.title));
    }
    FilterAgree(magazines, (m: Magazine) => MatchesSearch(m, "") && MatchesCategory(m, selectedCategory),
                (m: Magazine) => MatchesCategory(m, selectedCategory));
  }

  /** With "ALL" selected only the search applies: the magazines page then lists what the home page lists. */
  lemma AllCategoryIsSearchOnly(magazines: seq<Magazine>, query: string)
    ensures FilteredMagazines(magazines, query, "ALL") == AllMagazines(magazines, query)
  {
    FilterAgree(magazines, (m: Magazine) => MatchesSearch(m, query) && MatchesCategory(m, "ALL"),
                (m: Magazine) => MatchesSearch(m, query));
  }

  /** `featuredMagazines` of the home page; the search query plays no part. */
  function FeaturedMagazines(magazines: seq<Magazine>): (r: seq<Magazine>)
    ensures SubsequenceOf(r, magazines)
    ensures forall m :: m in r <==> m in magazines && m.featured
    ensures forall m :: multiset(r)[m] == if m.featured then multiset(magazines)[m] else 0
  {
    Filter(magazines, (m: Magazine) => m.featured)
  }

  /** `allMagazines` of the home page: the search alone, no category. */
  function AllMagazines(magazines: seq<Magazine>, query: string): (r: seq<Magazine>)
    ensures SubsequenceOf(r, magazines)
    ensures forall m :: m in r <==> m in magazines && MatchesSearch(m, query)
    ensures forall m :: multiset(r)[m] == if MatchesSearch(m, query) then multiset(magazines)[m] else 0
  {
    Filter(magazines, (m: Magazine) => MatchesSearch(m, query))
  }

  /** An empty query lists every magazine. */
  lemma EmptyQueryListsAll(magazines: seq<Magazine>)
    ensures AllMagazines(magazines, "") == magazines
  {
    forall m: Magazine ensures MatchesSearch(m, "") {
      IncludesEmpty(Lower(m.title));
    }
    FilterAll(magazines, (m: Magazine) => MatchesSearch(m, ""));
  }

  /** "{n} magazine(s) found". */
  function MagazineCountText(n: nat): (r: string)
    ensures n == 1 ==> r == "1 magazine found"
    ensures n != 1 ==> r == NatToString(n) + " magazines found"
  {
    NatToString(n) + " magazine" + PluralSuffix(n) + " found"
  }
}
