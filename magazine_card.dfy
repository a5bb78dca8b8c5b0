/**
 * The two links of a magazine card: the author page, addressed by a slug
 * made from the author's name, and the magazine page, addressed by the
 * magazine's slug. `base` is the configured base URL.
 */
module MagazineCard {
  import opened Wrappers
  import opened Strings

  /** `s.replace(from, to)` with a one-character string pattern: only the first occurrence is replaced. */
  function ReplaceFirst(s: string, from: char, to: char): (r: string)
    ensures |r| == |s|
    ensures from !in s ==> r == s
    ensures from in s ==>
      var i := IndexOf(s, from);
      r[i] == to && r[..i] == s[..i] && r[i + 1..] == s[i + 1..]
  {
    if from in s then
      var i := IndexOf(s, from);
      s[..i] + [to] + s[i + 1..]
    else s
  }

  /** `author.toLowerCase().replace(' ', '-')`. */
  function AuthorSlug(author: string): string {
    ReplaceFirst(Lower(author), ' ', '-')
  }

  /** `${base}/author/${slug}`. */
  function AuthorLink(base: string, author: string): string {
    base + "/author/" + AuthorSlug(author)
  }

  /** `${base}/magazine/${slug}/`. */
  function MagazineLink(base: string, slug: string): string {
    base + "/magazine/" + slug + "/"
  }

  /** Lower-casing moves no character other than a letter. */
  lemma LowerKeeps(s: string, c: char)
    requires !('A' <= c <= 'Z') && !('a' <= c <= 'z')
    ensures forall j :: 0 <= j < |s| ==> (Lower(s)[j] == c <==> s[j] == c)
    ensures (c in Lower(s)) == (c in s)
  {
    if c in Lower(s) {
      var j :| 0 <= j < |s| && Lower(s)[j] == c;
      assert s[j] == c;
    }
    if c in s {
      var j :| 0 <= j < |s| && s[j] == c;
      assert Lower(s)[j] == c;
    }
  }

  /** Pointwise, the replacement changes the first `from` and nothing else. */
  lemma ReplaceFirstPointwise(s: string, from: char, to: char)
    requires from in s
    ensures forall j :: 0 <= j < |s| ==>
      ReplaceFirst(s, from, to)[j] == if j == IndexOf(s, from) then to else s[j]
  {
    var i, r := IndexOf(s, from), ReplaceFirst(s, from, to);
    forall j | 0 <= j < |s| && j != i ensures r[j] == s[j] {
      if j < i {
        assert r[j] == r[..i][j];
      } else {
        assert r[j] == r[i + 1..][j - i - 1];
      }
    }
  }

  /** The first occurrence of `c` is at `i` when `c` sits at `i` and nowhere before. */
  lemma {:induction false} IndexOfAt(s: string, c: char, i: nat)
    requires i < |s| && s[i] == c
    requires forall j :: 0 <= j < i ==> s[j] != c
    ensures IndexOf(s, c) == i
  {
    if i > 0 {
      IndexOfAt(s[1..], c, i - 1);
    }
  }

  /** Replacing the first `from` by a fresh `to`, and then the first `to` by `from`, restores the string. */
  lemma ReplaceFirstUndo(s: string, from: char, to: char)
    requires to !in s
    ensures ReplaceFirst(ReplaceFirst(s, from, to), to, from) == s
  {
    if from in s {
      var i, t := IndexOf(s, from), ReplaceFirst(s, from, to);
      ReplaceFirstPointwise(s, from, to);
      assert forall j :: 0 <= j < i ==> s[j] == s[..i][j];
      IndexOfAt(t, to, i);
      ReplaceFirstPointwise(t, to, from);
      assert forall j :: 0 <= j < |s| ==> ReplaceFirst(t, to, from)[j] == s[j];
    }
  }

  /**
   * The slug is the lower-cased name with its first space turned into `-`;
   * it is as long as the name, and every later space stays.
   */
  lemma AuthorSlugShape(author: string)
    ensures |AuthorSlug(author)| == |author|
    ensures ' ' !in author ==> AuthorSlug(author) == Lower(author)
    ensures ' ' in author ==>
      var i := IndexOf(author, ' ');
      AuthorSlug(author)[i] == '-'
      && (forall j :: 0 <= j < |author| && j != i ==> AuthorSlug(author)[j] == LowerChar(author[j]))
      && (forall j :: i < j < |author| && author[j] == ' ' ==> AuthorSlug(author)[j] == ' ')
  {
    var lower, slug := Lower(author), AuthorSlug(author);
    assert (' ' in lower) == (' ' in author) by {
      LowerKeeps(author, ' ');
    }
    if ' ' in author {
      var i := IndexOf(author, ' ');
      assert IndexOf(lower, ' ') == i by {
        assert forall j :: 0 <= j < i ==> author[j] == author[..i][j];
        LowerKeeps(author, ' ');
        IndexOfAt(lower, ' ', i);
      }
      assert forall j :: 0 <= j < |author| ==> slug[j] == if j == i then '-' else lower[j] by {
        ReplaceFirstPointwise(lower, ' ', '-');
      }
    }
  }

  /** For a name without `-`, turning the first `-` back into a space recovers the lower-cased name. */
  lemma AuthorSlugRoundTrip(author: string)
    requires '-' !in author
    ensures ReplaceFirst(AuthorSlug(author), '-', ' ') == Lower(author)
  {
    LowerKeeps(author, '-');
    ReplaceFirstUndo(Lower(author), ' ', '-');
  }

  /** The segment after `prefix`, with one trailing `/` removed, when it is a single non-empty segment. */
  function SegmentAfter(path: string, prefix: string): (r: Option<string>)
    ensures r.Some? ==> r.value != "" && '/' !in r.value
  {
    if |prefix| <= |path| && path[..|prefix|] == prefix then
      var rest := path[|prefix|..];
      var seg := if rest != "" && rest[|rest| - 1] == '/' then rest[..|rest| - 1] else rest;
      if seg != "" && '/' !in seg then Some(seg) else None
    else None
  }

  /** A slug without `/` is read back intact from the magazine link. */
  lemma MagazineLinkRoundTrip(base: string, slug: string)
    requires slug != "" && '/' !in slug
    ensures SegmentAfter(MagazineLink(base, slug), base + "/magazine/") == Some(slug)
  {
    var prefix := base + "/magazine/";
    var path := MagazineLink(base, slug);
    assert path == prefix + (slug + "/");
    assert path[..|prefix|] == prefix;
    assert path[|prefix|..] == slug + "/";
    assert (slug + "/")[..|slug|] == slug;
  }

  /** Likewise the author slug, whenever the name is non-empty and has no `/`. */
  lemma AuthorLinkRoundTrip(base: string, author: string)
    requires author != "" && '/' !in author
    ensures SegmentAfter(AuthorLink(base, author), base + "/author/") == Some(AuthorSlug(author))
  {
    var prefix := base + "/author/";
    var slug := AuthorSlug(author);
    var path := AuthorLink(base, author);
    assert path == prefix + slug;
    assert path[..|prefix|] == prefix;
    assert path[|prefix|..] == slug;
    LowerKeeps(author, '/');
    assert '/' !in slug by {
      AuthorSlugShape(author);
    }
  }
}
