/**
 * The authors page: the `/authors/` response folded into a dictionary keyed
 * by username, the name search over it, the initials shown when an avatar
 * is missing, and the category badges.
 */
module Authors {
  import opened Wrappers
  import opened Strings
  import opened Seqs

  /** One author of the `/authors/` response; a missing bio reads as "". */
  datatype AuthorRecord = AuthorRecord(
    name: string, username: string, image: string, articles: seq<string>,
    categories: seq<string>, bio: string)

  /** The entry the page keeps for an author. */
  datatype Author = Author(
    name: string, username: string, image: string, articles: seq<string>,
    categories: seq<string>, bio: string)

  const DefaultBio: string := "A passionate writer and creative storyteller."

  /**
   * The entry built from one record: its categories become a `Set` (each
   * once, in first-appearance order) and an empty bio falls back to the
   * stock sentence.
   */
  function ToAuthor(a: AuthorRecord): (r: Author)
    ensures r.name == a.name && r.username == a.username && r.image == a.image && r.articles == a.articles
    ensures Distinct(r.categories) && forall c :: c in r.categories <==> c in a.categories
    ensures forall i, j :: 0 <= i < j < |r.categories| ==>
      FirstIndex(a.categories, r.categories[i]) < FirstIndex(a.categories, r.categories[j])
    ensures r.bio != "" && (a.bio != "" ==> r.bio == a.bio) && (a.bio == "" ==> r.bio == DefaultBio)
  {
    DedupOrder(a.categories);
    Author(a.name, a.username, a.image, a.articles, Dedup(a.categories),
           if a.bio != "" then a.bio else DefaultBio)
  }

  function Usernames(records: seq<AuthorRecord>): seq<string> {
    seq(|records|, i requires 0 <= i < |records| => records[i].username)
  }

  /** The dictionary the `reduce` builds: each record, in turn, stored under its username. */
  function AuthorsInfo(records: seq<AuthorRecord>): map<string, Author>
    decreases |records|
  {
    if records == [] then map[]
    else
      var last := records[|records| - 1];
      AuthorsInfo(records[..|records| - 1])[last.username := ToAuthor(last)]
  }

  /** The dictionary's keys are exactly the usernames of the response. */
  lemma {:induction false} AuthorsInfoKeys(records: seq<AuthorRecord>)
    ensures forall u :: u in AuthorsInfo(records) <==> u in Usernames(records)
    decreases |records|
  {
    if records != [] {
      var init := records[..|records| - 1];
      AuthorsInfoKeys(init);
      assert Usernames(records) == Usernames(init) + [records[|records| - 1].username];
    }
  }

  /**
   * When a username repeats, the later record overwrites the earlier one:
   * the entry of a username is built from its last record.
   */
  lemma {:induction false} LaterRecordWins(records: seq<AuthorRecord>, i: nat)
    requires i < |records|
    requires forall j :: i < j < |records| ==> records[j].username != records[i].username
    ensures records[i].username in AuthorsInfo(records)
    ensures AuthorsInfo(records)[records[i].username] == ToAuthor(records[i])
    decreases |records|
  {
    if i < |records| - 1 {
      LaterRecordWins(records[..|records| - 1], i);
    }
  }

  /**
   * The `reduce` over the response, assigning into the accumulator in
   * place. A JavaScript object keeps its keys in the order of their first
   * assignment, which `keys` records; a repeated username keeps its place
   * and takes the later value.
   */
  method BuildAuthorsInfo(records: seq<AuthorRecord>) returns (keys: seq<string>, info: map<string, Author>)
    ensures keys == Dedup(Usernames(records))
    ensures info == AuthorsInfo(records)
    ensures forall u :: u in info <==> u in keys
  {
    keys, info := [], map[];
    var i := 0;
    while i < |records|
      invariant 0 <= i <= |records|
      invariant keys == Dedup(Usernames(records[..i]))
      invariant info == AuthorsInfo(records[..i])
      invariant forall u :: u in info <==> u in keys
    {
      var author := records[i];
      BuildStep(records, i);
      if author.username !in info {
        keys := keys + [author.username];
      }
      info := info[author.username := ToAuthor(author)];
      i := i + 1;
    }
    assert records[..i] == records;
  }

  /** Taking one more record extends the usernames and the dictionary by that record. */
  lemma BuildStep(records: seq<AuthorRecord>, i: nat)
    requires i < |records|
    ensures Usernames(records[..i + 1]) == Usernames(records[..i]) + [records[i].username]
    ensures AuthorsInfo(records[..i + 1]) == AuthorsInfo(records[..i])[records[i].username := ToAuthor(records[i])]
  {
    assert records[..i + 1][..i] == records[..i];
  }

  /** `Object.values(authorsInfo)`: the entries in key order. */
  function AuthorValues(records: seq<AuthorRecord>): seq<Author> {
    var keys, info := Dedup(Usernames(records)), AuthorsInfo(records);
    AuthorsInfoKeys(records);
    seq(|keys|, i requires 0 <= i < |keys| => info[keys[i]])
  }

  /** The name search: the lower-cased query occurs in the lower-cased name. */
  predicate NameMatches(a: Author, query: string) {
    Includes(Lower(a.name), Lower(query))
  }

  /** `authors`: the entries whose name matches, in key order. */
  function SearchAuthors(authors: seq<Author>, query: string): (r: seq<Author>)
    ensures SubsequenceOf(r, authors)
    ensures forall a :: a in r <==> a in authors && NameMatches(a, query)
    ensures forall a :: multiset(r)[a] == if NameMatches(a, query) then multiset(authors)[a] else 0
  {
    Filter(authors, (a: Author) => NameMatches(a, query))
  }

  /** An empty query lists every author. */
  lemma EmptyQueryListsAllAuthors(authors: seq<Author>)
    ensures SearchAuthors(authors, "") == authors
  {
    forall a: Author ensures NameMatches(a, "") {
      IncludesEmpty(Lower(a.name));
    }
    FilterAll(authors, (a: Author) => NameMatches(a, ""));
  }

  /** `word[0]`, where the first letter of an empty word is `undefined` and joins as "". */
  function FirstLetter(word: string): string {
    if word == "" then "" else [word[0]]
  }

  /** The first letters of the words, joined: `words.map(word => word[0]).join('')`. */
  function FirstLetters(words: seq<string>): string {
    if words == [] then "" else FirstLetter(words[0]) + FirstLetters(words[1..])
  }

  /** `getAuthorInitials`: the first letter of every space-separated word, upper-cased. */
  function Initials(name: string): string {
    Upper(FirstLetters(Split(name, ' ')))
  }

  /** A single word gives its upper-cased first letter; an empty one gives nothing. */
  lemma InitialsOfWord(word: string)
    requires ' ' !in word
    ensures Initials(word) == if word == "" then "" else [UpperChar(word[0])]
  {
    assert FirstLetters([word]) == FirstLetter(word) + FirstLetters([]);
  }

  /** Names joined by a space have the initials of each, one after the other. */
  lemma InitialsAppend(first: string, rest: string)
    requires ' ' !in first
    ensures Initials(first + " " + rest) == Initials(first) + Initials(rest)
  {
    SplitAppend(first, rest, ' ');
    var words := Split(rest, ' ');
    assert ([first] + words)[1..] == words;
    assert FirstLetters([first] + words) == FirstLetter(first) + FirstLetters(words);
    UpperAppend(FirstLetter(first), FirstLetters(words));
    InitialsOfWord(first);
  }

  /** Repeated spaces make empty words, which add no letter. */
  lemma DoubleSpaceAddsNothing(rest: string)
    ensures Initials(" " + rest) == Initials(rest)
  {
    var name := "" + " " + rest;
    assert name == " " + rest;
    assert Initials(name) == Initials("") + Initials(rest) by {
      InitialsAppend("", rest);
    }
    assert Initials("") == "" by {
      InitialsOfWord("");
    }
  }

  /** The badges shown: the first three categories. */
  function VisibleBadges(categories: seq<string>): (r: seq<string>)
    ensures |r| <= 3 && |r| <= |categories| && r == categories[..|r|]
    ensures |r| == 3 || r == categories
  {
    if |categories| <= 3 then categories else categories[..3]
  }

  /** The "+n" badge, present only when more than three categories exist. */
  function OverflowBadge(categories: seq<string>): (r: Option<string>)
    ensures r.Some? <==> |categories| > 3
  {
    if |categories| > 3 then Some("+" + NatToString(|categories| - 3)) else None
  }

  /** The badges leave out exactly the categories the "+n" badge counts. */
  lemma BadgesCoverAll(categories: seq<string>)
    ensures |VisibleBadges(categories)| + (if |categories| > 3 then |categories| - 3 else 0) == |categories|
    ensures OverflowBadge(categories).Some? ==>
      OverflowBadge(categories).value == "+" + NatToString(|categories| - |VisibleBadges(categories)|)
  {
  }

  /** "{n} author(s) found". */
  function AuthorCountText(n: nat): (r: string)
    ensures n == 1 ==> r == "1 author found"
    ensures n != 1 ==> r == NatToString(n) + " authors found"
  {
    NatToString(n) + " author" + PluralSuffix(n) + " found"
  }

  /** "{n} article(s)". */
  function ArticleCountText(n: nat): (r: string)
    ensures n == 1 ==> r == "1 article"
    ensures n != 1 ==> r == NatToString(n) + " articles"
  {
    NatToString(n) + " article" + PluralSuffix(n)
  }
}
