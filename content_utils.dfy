/**
 * The newline post-processor applied to article HTML before it is rendered:
 * the text is cut into tag parts (matches of `<[^>]*>`) and the text between
 * them, tags are kept as they are, and a text part holding a line break is
 * replaced by its trimmed, non-blank lines joined with `<br />`.
 */
module ContentUtils {
  import opened Wrappers
  import opened Strings
  import opened Seqs

  /** `s` holds no match of `<[^>]*>`: no `<` is followed, later, by a `>`. */
  predicate NoTag(s: string) {
    forall i, j :: 0 <= i < j < |s| && s[i] == '<' ==> s[j] != '>'
  }

  /** `t` is one whole match of `<[^>]*>`. */
  predicate IsTag(t: string) {
    |t| >= 2 && t[0] == '<' && t[|t| - 1] == '>' && forall i :: 0 < i < |t| - 1 ==> t[i] != '>'
  }

  /**
   * The leftmost match of `<[^>]*>`, as offsets of its `<` and its `>`: it
   * starts at the first `<` and ends at the first `>` after it.
   */
  function FirstTag(s: string): (m: Option<(nat, nat)>)
    ensures m.Some? ==>
      (m.value.0 < m.value.1 < |s| && '<' !in s[..m.value.0] && IsTag(s[m.value.0..m.value.1 + 1]))
    ensures m.None? ==> NoTag(s)
  {
    if '<' !in s then None
    else
      var p := IndexOf(s, '<');
      if '>' !in s[p..] then
        assert forall j :: p <= j < |s| ==> s[j] == s[p..][j - p];
        None
      else
        var d := IndexOf(s[p..], '>');
        var t := s[p..p + d + 1];
        assert t[0] == '<' && t[d] == '>';
        assert forall i :: 0 < i < d ==> t[i] == s[p..][..d][i];
        Some((p, p + d))
  }

  /**
   * Text and tag parts alternate, beginning and ending with a (possibly
   * empty) text part.
   */
  ghost predicate Alternating(parts: seq<string>)
    decreases |parts|
  {
    |parts| >= 1 && NoTag(parts[0])
    && (|parts| == 1 || (|parts| >= 3 && IsTag(parts[1]) && Alternating(parts[2..])))
  }

  /** `s.split(/(<[^>]*>)/)`: alternating text and tag parts that together spell `s`. */
  function SplitTags(s: string): (parts: seq<string>)
    ensures Alternating(parts)
    ensures Concat(parts) == s
    decreases |s|
  {
    var m := FirstTag(s);
    if m.None? then
      SingleText(s);
      [s]
    else
      var p, q := m.value.0, m.value.1;
      var rest := SplitTags(s[q + 1..]);
      SplitStep(s, p, q, rest);
      [s[..p], s[p..q + 1]] + rest
  }

  /** A text without tags is split into itself. */
  lemma SingleText(s: string)
    requires NoTag(s)
    ensures Alternating([s]) && Concat([s]) == s
  {
    assert Concat([s]) == s + Concat([]);
  }

  /** One step of the split: the text before the first tag, the tag, and the split of the rest. */
  lemma SplitStep(s: string, p: nat, q: nat, rest: seq<string>)
    requires FirstTag(s) == Some((p, q))
    requires Alternating(rest) && Concat(rest) == s[q + 1..]
    ensures Alternating([s[..p], s[p..q + 1]] + rest)
    ensures Concat([s[..p], s[p..q + 1]] + rest) == s
  {
    NoOpenNoTag(s[..p]);
    PrependTag(s[..p], s[p..q + 1], rest);
    assert s == s[..p] + s[p..q + 1] + s[q + 1..];
  }

  /** Text without `<` holds no tag. */
  lemma NoOpenNoTag(t: string)
    requires '<' !in t
    ensures NoTag(t)
  {
    assert forall i :: 0 <= i < |t| ==> t[i] != '<';
  }

  /** A text part and a tag in front of an alternating split give an alternating split. */
  lemma PrependTag(text: string, tag: string, rest: seq<string>)
    requires NoTag(text) && IsTag(tag) && Alternating(rest)
    ensures Alternating([text, tag] + rest)
    ensures Concat([text, tag] + rest) == text + tag + Concat(rest)
  {
    var parts := [text, tag] + rest;
    assert parts[2..] == rest;
    assert parts[1..] == [tag] + rest && ([tag] + rest)[1..] == rest;
  }

  /** Every text part followed by a tag holds no `<`. */
  predicate OpensAtCuts(parts: seq<string>) {
    forall k :: 0 <= k < |parts| - 1 && k % 2 == 0 ==> '<' !in parts[k]
  }

  /**
   * Each tag of the split starts at the first `<` after the previous one,
   * so the cuts fall where the regular expression's leftmost matches put
   * them.
   */
  lemma {:induction false} SplitTagsCuts(s: string)
    ensures OpensAtCuts(SplitTags(s))
    decreases |s|
  {
    var m := FirstTag(s);
    if m.Some? {
      var p, q := m.value.0, m.value.1;
      var rest := SplitTags(s[q + 1..]);
      SplitTagsCuts(s[q + 1..]);
      CutsStep(s, p, q, rest);
      assert SplitTags(s) == [s[..p], s[p..q + 1]] + rest;
    }
  }

  /** The text before the first tag holds no `<`, and the split of the rest keeps its cuts. */
  lemma CutsStep(s: string, p: nat, q: nat, rest: seq<string>)
    requires FirstTag(s) == Some((p, q))
    requires OpensAtCuts(rest)
    ensures OpensAtCuts([s[..p], s[p..q + 1]] + rest)
  {
    var parts := [s[..p], s[p..q + 1]] + rest;
    assert forall k :: 2 <= k < |parts| ==> parts[k] == rest[k - 2];
  }

  /** In an alternating split the odd-numbered parts are the tags. */
  lemma {:induction false} AlternatingParity(parts: seq<string>)
    requires Alternating(parts)
    ensures |parts| % 2 == 1
    ensures forall k :: 0 <= k < |parts| && k % 2 == 1 ==> IsTag(parts[k])
    ensures forall k :: 0 <= k < |parts| && k % 2 == 0 ==> NoTag(parts[k])
    decreases |parts|
  {
    if |parts| > 1 {
      AlternatingParity(parts[2..]);
      assert forall k :: 2 <= k < |parts| ==> parts[k] == parts[2..][k - 2];
    }
  }

  /** The test the source applies to each part: `startsWith('<') && endsWith('>')`. */
  predicate LooksLikeTag(part: string) {
    |part| > 0 && part[0] == '<' && part[|part| - 1] == '>'
  }

  /** `lines.map(line => line.trim())`. */
  function TrimEach(lines: seq<string>): (r: seq<string>)
    ensures |r| == |lines|
    ensures forall k :: 0 <= k < |lines| ==> r[k] == Trim(lines[k])
  {
    if lines == [] then [] else [Trim(lines[0])] + TrimEach(lines[1..])
  }

  /** The `filter(line => line.length > 0)` test. */
  predicate NonEmpty(line: string) {
    |line| > 0
  }

  /** The lines of a text part, each trimmed, blank ones left out. */
  function TrimmedLines(part: string): seq<string> {
    Filter(TrimEach(Split(part, '\n')), NonEmpty)
  }

  /** What one part becomes. */
  function ProcessPart(part: string): string {
    if LooksLikeTag(part) then part
    else if |Split(part, '\n')| > 1 then Join(TrimmedLines(part), "<br />")
    else part
  }

  /** `processPlainTextNewlines`: every part processed, then joined in order. */
  function ProcessPlainTextNewlines(text: string): string {
    var parts := SplitTags(text);
    Concat(seq(|parts|, k requires 0 <= k < |parts| => ProcessPart(parts[k])))
  }

  /** `processHtmlContent`. */
  function ProcessHtmlContent(content: string): string {
    ProcessPlainTextNewlines(content)
  }

  /** Every character of a piece is a character of the joined string. */
  lemma {:induction false} JoinContains(parts: seq<string>, sep: string, k: nat, c: char)
    requires k < |parts| && c in parts[k]
    ensures c in Join(parts, sep)
    decreases |parts|
  {
    if k > 0 {
      JoinContains(parts[1..], sep, k - 1, c);
    }
  }

  /** Every character of a piece is a character of the concatenation. */
  lemma {:induction false} ConcatContains(parts: seq<string>, k: nat, c: char)
    requires k < |parts| && c in parts[k]
    ensures c in Concat(parts)
    decreases |parts|
  {
    if k > 0 {
      ConcatContains(parts[1..], k - 1, c);
    }
  }

  /**
   * The source's startsWith/endsWith test picks out exactly the tag parts of
   * the split: the odd-numbered ones.
   */
  lemma TagTestIsExact(s: string)
    ensures forall k :: 0 <= k < |SplitTags(s)| ==> (LooksLikeTag(SplitTags(s)[k]) <==> k % 2 == 1)
  {
    var parts := SplitTags(s);
    AlternatingParity(parts);
  }

  /** Tag parts reach the output unchanged. */
  lemma TagsVerbatim(s: string)
    ensures forall k :: 0 <= k < |SplitTags(s)| && k % 2 == 1 ==> ProcessPart(SplitTags(s)[k]) == SplitTags(s)[k]
  {
    TagTestIsExact(s);
  }

  /** A part without a line break is kept as it is, so is a text without one. */
  lemma NoNewlineUnchanged(s: string)
    requires '\n' !in s
    ensures ProcessHtmlContent(s) == s
  {
    var parts := SplitTags(s);
    var out := seq(|parts|, k requires 0 <= k < |parts| => ProcessPart(parts[k]));
    forall k | 0 <= k < |parts|
      ensures out[k] == parts[k]
    {
      if '\n' in parts[k] {
        ConcatContains(parts, k, '\n');
      }
    }
    assert out == parts;
  }

  /** The kept lines are non-empty and free of line breaks. */
  lemma KeptLines(part: string)
    ensures forall k :: 0 <= k < |TrimmedLines(part)| ==>
      TrimmedLines(part)[k] != "" && '\n' !in TrimmedLines(part)[k]
  {
    var lines := Split(part, '\n');
    TrimEachKeepsOut(lines, '\n');
    KeptFrom(TrimEach(lines), '\n');
  }

  /** Trimming adds no character. */
  lemma TrimEachKeepsOut(lines: seq<string>, c: char)
    requires forall j :: 0 <= j < |lines| ==> c !in lines[j]
    ensures forall x :: x in TrimEach(lines) ==> c !in x
  {
    var trimmed := TrimEach(lines);
    forall j | 0 <= j < |trimmed| ensures c !in trimmed[j] {
      assert c !in lines[j];
    }
  }

  /** Filtering keeps only lines that were there, and only non-empty ones. */
  lemma KeptFrom(trimmed: seq<string>, c: char)
    requires forall x :: x in trimmed ==> c !in x
    ensures forall k :: 0 <= k < |Filter(trimmed, NonEmpty)| ==>
      Filter(trimmed, NonEmpty)[k] != "" && c !in Filter(trimmed, NonEmpty)[k]
  {
    var kept := Filter(trimmed, NonEmpty);
    forall k | 0 <= k < |kept| ensures kept[k] != "" && c !in kept[k] {
      assert kept[k] in kept;
    }
  }

  /** A text part with a line break becomes its kept lines joined by `<br />`; one without stays. */
  lemma ProcessText(part: string)
    requires !LooksLikeTag(part)
    ensures '\n' in part ==> ProcessPart(part) == Join(TrimmedLines(part), "<br />")
    ensures '\n' !in part ==> ProcessPart(part) == part
  {
  }

  /** A processed text part never holds a line break. */
  lemma TextLosesNewlines(part: string)
    requires !LooksLikeTag(part)
    ensures '\n' !in ProcessPart(part)
  {
    ProcessText(part);
    if '\n' in part {
      KeptLines(part);
      JoinExcludes(TrimmedLines(part), "<br />", '\n');
    }
  }

  /**
   * The output is the processed parts in input order: the tags, at the odd
   * positions, exactly as they were, and text parts without any line break.
   */
  lemma ProcessedParts(s: string)
    ensures var parts := SplitTags(s);
      exists out: seq<string> ::
        && |out| == |parts|
        && ProcessHtmlContent(s) == Concat(out)
        && (forall k :: 0 <= k < |out| && k % 2 == 1 ==> out[k] == parts[k])
        && (forall k :: 0 <= k < |out| && k % 2 == 0 ==> '\n' !in out[k])
  {
    var parts := SplitTags(s);
    var out := seq(|parts|, k requires 0 <= k < |parts| => ProcessPart(parts[k]));
    TagsVerbatim(s);
    TagTestIsExact(s);
    forall k | 0 <= k < |out| && k % 2 == 0 ensures '\n' !in out[k] {
      TextLosesNewlines(parts[k]);
    }
    assert ProcessHtmlContent(s) == Concat(out);
  }

  /** Nothing but whitespace leaves no line. */
  lemma BlankLinesVanish(part: string)
    requires AllSpace(part)
    ensures TrimmedLines(part) == []
  {
    var lines := Split(part, '\n');
    forall j | 0 <= j < |lines|
      ensures AllSpace(lines[j])
    {
      forall m | 0 <= m < |lines[j]|
        ensures IsSpace(lines[j][m])
      {
        JoinContains(lines, "\n", j, lines[j][m]);
      }
    }
    BlankLinesTrimEmpty(lines);
    NothingKept(TrimEach(lines));
  }

  lemma BlankLinesTrimEmpty(lines: seq<string>)
    requires forall j :: 0 <= j < |lines| ==> AllSpace(lines[j])
    ensures forall x :: x in TrimEach(lines) ==> x == ""
  {
    var trimmed := TrimEach(lines);
    forall j | 0 <= j < |trimmed| ensures trimmed[j] == "" {
      assert AllSpace(lines[j]);
    }
  }

  lemma NothingKept(trimmed: seq<string>)
    requires forall x :: x in trimmed ==> x == ""
    ensures Filter(trimmed, NonEmpty) == []
  {
  }

  /** A character other than whitespace keeps its line. */
  lemma SomeLineKept(part: string)
    requires !AllSpace(part)
    ensures TrimmedLines(part) != []
  {
    var lines := Split(part, '\n');
    var trimmed := TrimEach(lines);
    var m :| 0 <= m < |part| && !IsSpace(part[m]);
    var k := LineOf(lines, m);
    assert lines[k] != [] && !AllSpace(lines[k]);
    assert trimmed[k] in trimmed;
  }

  /**
   * A text part with a line break and nothing but whitespace disappears;
   * one with a line break and some other character does not.
   */
  lemma BlankTextVanishes(part: string)
    requires !LooksLikeTag(part) && '\n' in part
    ensures ProcessPart(part) == "" <==> AllSpace(part)
  {
    var kept := TrimmedLines(part);
    ProcessText(part);
    if AllSpace(part) {
      BlankLinesVanish(part);
    } else {
      SomeLineKept(part);
      KeptLines(part);
      JoinNonEmpty(kept, "<br />", kept[0]);
    }
  }

  /** A joined string is empty only when every piece is. */
  lemma {:induction false} JoinNonEmpty(parts: seq<string>, sep: string, x: string)
    requires x in parts && x != ""
    ensures Join(parts, sep) != ""
    decreases |parts|
  {
    if |parts| > 1 && parts[0] != x {
      JoinNonEmpty(parts[1..], sep, x);
    }
  }

  /** The line of `Split(s, '\n')` that holds a character of `s` that is not a line break. */
  lemma {:induction false} LineOf(lines: seq<string>, m: nat) returns (k: nat)
    requires |lines| >= 1 && m < |Join(lines, "\n")| && Join(lines, "\n")[m] != '\n'
    ensures k < |lines| && Join(lines, "\n")[m] in lines[k]
  {
    if |lines| == 1 {
      k := 0;
    } else if m < |lines[0]| {
      k := 0;
    } else {
      var rest := Join(lines[1..], "\n");
      assert Join(lines, "\n") == lines[0] + "\n" + rest;
      var k' := LineOf(lines[1..], m - |lines[0]| - 1);
      k := k' + 1;
    }
  }
}
