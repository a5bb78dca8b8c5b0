/**
 * `getCsrfToken`: the value of the `csrftoken` cookie, found the way the
 * pattern `(^|;)\s*csrftoken=([^;]+)` finds it. The regular expression is
 * written out as a scanner over the cookie string, which is a parameter
 * instead of `document.cookie`, and is proved against a declarative
 * description of a cookie entry.
 */
module Csrf {
  import opened Wrappers
  import opened Strings

  const Name: string := "csrftoken="

  /** The end of the run of whitespace starting at `i` (`\s*`, greedy). */
  function SpaceEnd(c: string, i: nat): (j: nat)
    requires i <= |c|
    ensures i <= j <= |c|
    ensures forall m :: i <= m < j ==> IsSpace(c[m])
    ensures j < |c| ==> !IsSpace(c[j])
    decreases |c| - i
  {
    if i < |c| && IsSpace(c[i]) then SpaceEnd(c, i + 1) else i
  }

  /** The end of the run of characters other than `;` starting at `i` (`[^;]*`, greedy). */
  function ValueEnd(c: string, i: nat): (j: nat)
    requires i <= |c|
    ensures i <= j <= |c|
    ensures forall m :: i <= m < j ==> c[m] != ';'
    ensures j < |c| ==> c[j] == ';'
    decreases |c| - i
  {
    if i < |c| && c[i] != ';' then ValueEnd(c, i + 1) else i
  }

  /** `\s*csrftoken=([^;]+)` matched at `q`, giving the captured value. */
  function EntryAt(c: string, q: nat): Option<string>
    requires q <= |c|
  {
    var k := SpaceEnd(c, q);
    if k + |Name| <= |c| && c[k..k + |Name|] == Name then
      var e := ValueEnd(c, k + |Name|);
      if k + |Name| < e then Some(c[k + |Name|..e]) else None
    else None
  }

  /** The whole pattern tried at `p`: the `^` alternative first, then `;`. */
  function MatchAt(c: string, p: nat): Option<string>
    requires p <= |c|
  {
    if p == 0 && EntryAt(c, 0).Some? then EntryAt(c, 0)
    else if p < |c| && c[p] == ';' then EntryAt(c, p + 1)
    else None
  }

  /** The leftmost match at or after `p`, with its start. */
  function Scan(c: string, p: nat): Option<(nat, string)>
    requires p <= |c|
    decreases |c| - p
  {
    match MatchAt(c, p)
    case Some(v) => Some((p, v))
    case None => if p == |c| then None else Scan(c, p + 1)
  }

  /** The captured value of the leftmost match, or '' when there is none. */
  function GetCsrfToken(cookie: string): string {
    match Scan(cookie, 0)
    case Some((_, v)) => v
    case None => ""
  }

  /**
   * A cookie entry at `q`: whitespace up to `k`, the name `csrftoken=`, then
   * `v`, which is non-empty, holds no `;`, and runs to the next `;` or the
   * end of the string.
   */
  ghost predicate IsEntry(c: string, q: nat, k: nat, v: string) {
    q <= k && k + |Name| + |v| <= |c|
    && (forall m :: q <= m < k ==> IsSpace(c[m]))
    && c[k..k + |Name|] == Name
    && c[k + |Name|..k + |Name| + |v|] == v
    && v != [] && ';' !in v
    && (k + |Name| + |v| == |c| || c[k + |Name| + |v|] == ';')
  }

  /** An entry whose name starts at some `k` after the whitespace that follows `q`. */
  ghost predicate EntryOf(c: string, q: nat, v: string) {
    exists k: nat :: IsEntry(c, q, k, v)
  }

  /** An entry right at the start of the string or right after a `;` at `p`. */
  ghost predicate TokenAt(c: string, p: nat, v: string) {
    (p == 0 && EntryOf(c, 0, v)) || (p < |c| && c[p] == ';' && EntryOf(c, p + 1, v))
  }

  /** The scanner for one entry finds exactly the entries the description allows. */
  lemma EntryAtIff(c: string, q: nat, v: string)
    requires q <= |c|
    ensures EntryAt(c, q) == Some(v) <==> EntryOf(c, q, v)
  {
    var k := SpaceEnd(c, q);
    if EntryAt(c, q) == Some(v) {
      assert IsEntry(c, q, k, v);
    }
    if EntryOf(c, q, v) {
      var k': nat :| IsEntry(c, q, k', v);
      assert c[k'] == c[k'..k' + |Name|][0] == 'c';
      assert k == k';
      var f := k + |Name| + |v|;
      var e := ValueEnd(c, k + |Name|);
      assert e == f;
    }
  }

  /** The whole pattern at `p` finds exactly the entries that start there. */
  lemma MatchAtIff(c: string, p: nat, v: string)
    requires p <= |c|
    ensures MatchAt(c, p) == Some(v) <==> TokenAt(c, p, v)
  {
    if p == 0 {
      EntryAtIff(c, 0, v);
      if 0 < |c| && c[0] == ';' {
        EntryAtIff(c, 1, v);
        assert EntryAt(c, 0).None? by {
          assert SpaceEnd(c, 0) == 0;
        }
      }
    } else if p < |c| {
      EntryAtIff(c, p + 1, v);
    }
  }

  /** No entry starts anywhere in `[from, to)`. */
  ghost predicate NoTokenBetween(c: string, from: nat, to: nat) {
    forall p, v :: from <= p < to ==> !TokenAt(c, p, v)
  }

  /** The scan returns the first position where the pattern matches. */
  lemma {:induction false} ScanFirst(c: string, p: nat)
    requires p <= |c|
    ensures Scan(c, p).Some? ==>
      p <= Scan(c, p).value.0 <= |c| && MatchAt(c, Scan(c, p).value.0) == Some(Scan(c, p).value.1)
      && forall p' :: p <= p' < Scan(c, p).value.0 ==> MatchAt(c, p').None?
    ensures Scan(c, p).None? ==> forall p' :: p <= p' <= |c| ==> MatchAt(c, p').None?
    decreases |c| - p
  {
    var m := MatchAt(c, p);
    if m.None? && p < |c| {
      ScanFirst(c, p + 1);
      assert Scan(c, p) == Scan(c, p + 1);
      forall p' | p <= p' < p + 1 ensures MatchAt(c, p').None? {
        assert p' == p;
      }
    }
  }

  /** The scan stops at the first entry: everything before it holds none. */
  lemma ScanLeftmost(c: string, p: nat)
    requires p <= |c|
    ensures Scan(c, p).Some? ==>
      Scan(c, p).value.0 >= p && TokenAt(c, Scan(c, p).value.0, Scan(c, p).value.1)
      && NoTokenBetween(c, p, Scan(c, p).value.0)
    ensures Scan(c, p).None? ==> NoTokenBetween(c, p, |c| + 1)
  {
    ScanFirst(c, p);
    forall p': nat, v | p' <= |c| ensures MatchAt(c, p') == Some(v) <==> TokenAt(c, p', v) {
      MatchAtIff(c, p', v);
    }
  }

  /**
   * The token is the value of the leftmost entry; the empty string means
   * that no entry with a non-empty value exists.
   */
  lemma GetCsrfTokenSpec(cookie: string)
    ensures GetCsrfToken(cookie) != "" ==>
      exists p: nat :: p <= |cookie| && TokenAt(cookie, p, GetCsrfToken(cookie)) && NoTokenBetween(cookie, 0, p)
    ensures GetCsrfToken(cookie) == "" ==> NoTokenBetween(cookie, 0, |cookie| + 1)
  {
    ScanLeftmost(cookie, 0);
    if Scan(cookie, 0).Some? {
      var p := Scan(cookie, 0).value.0;
      assert TokenAt(cookie, p, GetCsrfToken(cookie));
    }
  }

  /** A value is always non-empty and free of `;`. */
  lemma TokenHasNoSemicolon(cookie: string)
    ensures ';' !in GetCsrfToken(cookie)
  {
    GetCsrfTokenSpec(cookie);
    if GetCsrfToken(cookie) != "" {
      var p: nat :| p <= |cookie| && TokenAt(cookie, p, GetCsrfToken(cookie)) && NoTokenBetween(cookie, 0, p);
    }
  }

  /**
   * A cookie whose only entry has a name that merely ends in `csrftoken`
   * (one more non-space character or more before it, no `=` or `;` among
   * them) yields no token.
   */
  lemma LongerNameNeverMatches(prefix: string, v: string)
    requires prefix != "" && !IsSpace(prefix[0]) && ';' !in prefix && '=' !in prefix && ';' !in v
    ensures GetCsrfToken(prefix + Name + v) == ""
  {
    var c := prefix + Name + v;
    assert c[9] != '=' by {
      if |prefix| > 9 {
        assert c[9] == prefix[9];
      } else {
        assert c[9] == Name[9 - |prefix|];
      }
    }
    assert EntryAt(c, 0).None? by {
      assert SpaceEnd(c, 0) == 0;
      assert c[..|Name|][9] == c[9];
    }
    forall p | 0 < p <= |c| ensures MatchAt(c, p).None? {
      if p < |c| {
        assert c[p] != ';' by {
          if p < |prefix| {
            assert c[p] == prefix[p];
          } else if p < |prefix| + |Name| {
            assert c[p] == Name[p - |prefix|];
          } else {
            assert c[p] == v[p - |prefix| - |Name|];
          }
        }
      }
    }
    NoMatchFrom(c, 1);
  }

  lemma {:induction false} NoMatchFrom(c: string, p: nat)
    requires 0 < p <= |c|
    requires forall q :: p <= q <= |c| ==> MatchAt(c, q).None?
    ensures Scan(c, p).None?
    decreases |c| - p
  {
    if p < |c| {
      NoMatchFrom(c, p + 1);
    }
  }
}
