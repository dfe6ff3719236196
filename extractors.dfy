/** src/extractors.ts: the title and the description of a post, derived from
    a message's entities. */
module Extractors {
  import opened JsString
  import opened Types
  import opened Formatting

  /** A bold entity whose trimmed text is not empty: what the title loop
      accepts. */
  predicate IsTitleBold(e: TextEntity) {
    e.kind == "bold" && Trim(e.text) != ""
  }

  /** The loop of `extractTitle`: the trimmed text of the first bold entity
      that is not blank, if there is one. */
  function FirstBoldTitle(es: seq<TextEntity>): (r: Option<string>)
    ensures r.None? <==> forall i :: 0 <= i < |es| ==> !IsTitleBold(es[i])
    ensures r.Some? ==> r.value != ""
  {
    if es == [] then None
    else if IsTitleBold(es[0]) then Some(Trim(es[0].text))
    else
      var r := FirstBoldTitle(es[1..]);
      assert forall i :: 1 <= i < |es| ==> es[i] == es[1..][i - 1];
      r
  }

  /** The first title candidate wins. */
  lemma {:induction false} FirstBoldTitleAt(es: seq<TextEntity>, k: nat)
    requires k < |es| && IsTitleBold(es[k])
    requires forall j :: 0 <= j < k ==> !IsTitleBold(es[j])
    ensures FirstBoldTitle(es) == Some(Trim(es[k].text))
  {
    if k > 0 {
      var rest := es[1..];
      assert !IsTitleBold(es[0]);
      assert FirstBoldTitle(es) == FirstBoldTitle(rest);
      assert rest[k - 1] == es[k];
      forall j | 0 <= j < k - 1
        ensures !IsTitleBold(rest[j])
      {
        assert rest[j] == es[j + 1];
      }
      FirstBoldTitleAt(rest, k - 1);
    }
  }

  function EntityText(e: TextEntity): string {
    e.text
  }

  /** `.filter((e) => e.type === 'plain')`. */
  function PlainEntities(es: seq<TextEntity>): (r: seq<TextEntity>)
    ensures forall i :: 0 <= i < |r| ==> r[i].kind == "plain" && r[i] in es
    ensures forall i :: 0 <= i < |es| && es[i].kind == "plain" ==> es[i] in r
  {
    if es == [] then []
    else
      assert forall i :: 1 <= i < |es| ==> es[i] == es[1..][i - 1];
      (if es[0].kind == "plain" then [es[0]] else []) + PlainEntities(es[1..])
  }

  /** `filter` keeps the order of the plain entities, and each as often as
      it occurs: the plain entities of a concatenation are those of the first
      part followed by those of the second. */
  lemma {:induction false} PlainEntitiesAppend(a: seq<TextEntity>, b: seq<TextEntity>)
    ensures PlainEntities(a + b) == PlainEntities(a) + PlainEntities(b)
  {
    if a == [] {
      assert a + b == b;
    } else {
      assert (a + b)[0] == a[0];
      assert (a + b)[1..] == a[1..] + b;
      PlainEntitiesAppend(a[1..], b);
    }
  }

  /** The text of the plain entities, concatenated and trimmed. */
  function PlainText(es: seq<TextEntity>): string
  {
    Trim(ConcatMap(EntityText, PlainEntities(es)))
  }

  /** `.find((l) => l.trim()) ?? ''`: the first line that is not blank. */
  function FirstNonBlank(lines: seq<string>): (r: string)
    ensures r == "" || (r in lines && Trim(r) != "")
  {
    if lines == [] then ""
    else if Trim(lines[0]) != "" then lines[0]
    else FirstNonBlank(lines[1..])
  }

  /** The line found is the first non-blank one. */
  lemma {:induction false} FirstNonBlankAt(lines: seq<string>, k: nat)
    requires k < |lines| && Trim(lines[k]) != ""
    requires forall j :: 0 <= j < k ==> Trim(lines[j]) == ""
    ensures FirstNonBlank(lines) == lines[k]
  {
    if k > 0 {
      var rest := lines[1..];
      assert Trim(lines[0]) == "";
      assert FirstNonBlank(lines) == FirstNonBlank(rest);
      assert rest[k - 1] == lines[k];
      forall j | 0 <= j < k - 1
        ensures Trim(rest[j]) == ""
      {
        assert rest[j] == lines[j + 1];
      }
      FirstNonBlankAt(rest, k - 1);
    }
  }

  /** Nothing is found when every line is blank. */
  lemma {:induction false} FirstNonBlankNone(lines: seq<string>)
    requires forall j :: 0 <= j < |lines| ==> Trim(lines[j]) == ""
    ensures FirstNonBlank(lines) == ""
  {
    if lines != [] {
      assert Trim(lines[0]) == "";
      assert forall j :: 0 <= j < |lines| - 1 ==> lines[1..][j] == lines[j + 1];
      FirstNonBlankNone(lines[1..]);
    }
  }

  /** `post-{id}`, the last-resort title. */
  function PostTitle(id: int): (r: string)
    ensures |r| > 5 && r[..5] == "post-"
  {
    "post-" + IntToString(id)
  }

  /** The title from the plain text when no bold entity supplies one: the
      first sentence of the first non-blank line, cut to 100 characters. */
  function FallbackTitle(plainText: string, id: int): (r: string)
    ensures r != ""
  {
    if plainText != "" then
      var firstLine := FirstNonBlank(SplitOn(plainText, "\n"));
      var sentence := ExtractFirstSentence(Trim(firstLine));
      if sentence != "" then TruncateOnWordBoundary(sentence, 100) else PostTitle(id)
    else PostTitle(id)
  }

  /** `extractTitle`. A title is never empty. */
  function ExtractTitle(msg: Message): (r: string)
    ensures r != ""
  {
    match FirstBoldTitle(msg.entities)
    case Some(t) => t
    case None => FallbackTitle(PlainText(msg.entities), msg.id)
  }

  /** If some bold entity has non-blank text, the title is the trimmed text
      of the first such entity. */
  lemma TitleFromFirstBold(msg: Message, k: nat)
    requires k < |msg.entities| && IsTitleBold(msg.entities[k])
    requires forall j :: 0 <= j < k ==> !IsTitleBold(msg.entities[j])
    ensures ExtractTitle(msg) == Trim(msg.entities[k].text)
  {
    FirstBoldTitleAt(msg.entities, k);
  }

  /** The first line of a non-blank trimmed text is itself not blank. */
  lemma FirstLineOfTrimmed(plainText: string)
    requires plainText != "" && !IsWhitespace(plainText[0])
    ensures Trim(SplitOn(plainText, "\n")[0]) != ""
  {
    FirstPieceStart(plainText, "\n");
    var line := SplitOn(plainText, "\n")[0];
    assert !AllWhitespace(line) by { assert line[0] == plainText[0]; }
  }

  /** With no bold title and some plain text, the title is the first sentence
      of the first non-blank line of the plain text, truncated on a word
      boundary to 100 characters: at most 103 characters, never `post-{id}`'s
      branch. */
  lemma TitleFromPlainText(msg: Message)
    requires forall i :: 0 <= i < |msg.entities| ==> !IsTitleBold(msg.entities[i])
    requires PlainText(msg.entities) != ""
    ensures var lines := SplitOn(PlainText(msg.entities), "\n");
      ExtractTitle(msg) == TruncateOnWordBoundary(ExtractFirstSentence(Trim(FirstNonBlank(lines))), 100)
    ensures |ExtractTitle(msg)| <= 103
  {
    var p := PlainText(msg.entities);
    FirstLineOfTrimmed(p);
    FirstNonBlankAt(SplitOn(p, "\n"), 0);
    var line := FirstNonBlank(SplitOn(p, "\n"));
    assert Trim(line) != "";
    assert ExtractFirstSentence(Trim(line)) != "";
  }

  /** `post-{id}` is the title exactly when no bold entity has non-blank text
      and the plain text is blank. */
  lemma TitlePostId(msg: Message)
    requires forall i :: 0 <= i < |msg.entities| ==> !IsTitleBold(msg.entities[i])
    requires PlainText(msg.entities) == ""
    ensures ExtractTitle(msg) == PostTitle(msg.id)
  {
  }

  /** `.filter((p) => p.trim().length > 0)`. */
  function NonBlank(ps: seq<string>): (r: seq<string>)
    ensures forall i :: 0 <= i < |r| ==> Trim(r[i]) != ""
  {
    if ps == [] then []
    else (if Trim(ps[0]) != "" then [ps[0]] else []) + NonBlank(ps[1..])
  }

  /** The first surviving paragraph is the first non-blank one. */
  lemma {:induction false} NonBlankFirst(ps: seq<string>, k: nat)
    requires k < |ps| && Trim(ps[k]) != ""
    requires forall j :: 0 <= j < k ==> Trim(ps[j]) == ""
    ensures NonBlank(ps) != [] && NonBlank(ps)[0] == ps[k]
  {
    var rest := ps[1..];
    if k == 0 {
      assert NonBlank(ps) == [ps[0]] + NonBlank(rest);
    } else {
      assert Trim(ps[0]) == "";
      assert NonBlank(ps) == [] + NonBlank(rest);
      assert rest[k - 1] == ps[k];
      forall j | 0 <= j < k - 1
        ensures Trim(rest[j]) == ""
      {
        assert rest[j] == ps[j + 1];
      }
      NonBlankFirst(rest, k - 1);
    }
  }

  lemma {:induction false} NonBlankEmpty(ps: seq<string>)
    requires forall j :: 0 <= j < |ps| ==> Trim(ps[j]) == ""
    ensures NonBlank(ps) == []
  {
    if ps != [] {
      assert forall j :: 0 <= j < |ps| - 1 ==> ps[1..][j] == ps[j + 1];
      NonBlankEmpty(ps[1..]);
    }
  }

  /** The text after the first occurrence of the title, or all of it when the
      title does not occur. */
  function AfterTitle(fullText: string, title: string): string
  {
    var idx := IndexOf(fullText, title);
    if idx != -1 then fullText[idx + |title|..] else fullText
  }

  /** `paragraphs[0]?.trim() ?? ''`. */
  function FirstTrimmed(paragraphs: seq<string>): string
  {
    if paragraphs != [] then Trim(paragraphs[0]) else ""
  }

  /** `replace(/\n/g, ' ')`: the paragraph on a single line. */
  function JoinLines(p: string): (r: string)
    ensures '\n' !in r
  {
    ReplaceChar(p, '\n', ' ')
  }

  /** The first non-blank `\n\n`-separated paragraph, trimmed, with its
      newlines turned into spaces: a single line. */
  function FirstParagraph(rest: string): (r: string)
    ensures '\n' !in r
  {
    JoinLines(FirstTrimmed(NonBlank(SplitOn(rest, "\n\n"))))
  }

  /** Steps after the title has been located: the first paragraph truncated
      to 160 characters; the title when that comes out empty. */
  function DescriptionFrom(rest: string, title: string): string
  {
    var result := TruncateOnWordBoundary(FirstParagraph(rest), 160);
    if result != "" then result else title
  }

  /** `extractDescription`. The description is never empty, and unless it is
      the title it is a single line of at most 163 characters. */
  function ExtractDescription(msg: Message): (r: string)
    ensures r != ""
    ensures r == ExtractTitle(msg) || ('\n' !in r && |r| <= 163)
  {
    var title := ExtractTitle(msg);
    var rest := AfterTitle(ConcatMap(EntityText, msg.entities), title);
    TruncateAddsNothing(FirstParagraph(rest), 160, '\n');
    DescriptionFrom(rest, title)
  }

  /** The description is looked for after the first occurrence of the title
      in the concatenated text of all entities. */
  lemma AfterFirstOccurrence(fullText: string, title: string, k: nat)
    requires OccursAt(fullText, title, k)
    requires forall j :: 0 <= j < k ==> !OccursAt(fullText, title, j)
    ensures AfterTitle(fullText, title) == fullText[k + |title|..]
  {
    var idx := IndexOf(fullText, title);
    assert idx == k by {
      assert idx != -1 ==> !(idx < k) && !(k < idx);
    }
  }

  /** When the title does not occur, the search starts at the beginning. */
  lemma TitleNotFound(fullText: string, title: string)
    requires forall j :: 0 <= j ==> !OccursAt(fullText, title, j)
    ensures AfterTitle(fullText, title) == fullText
  {
  }

  /** The description comes from the first non-blank paragraph only. */
  lemma DescriptionFromFirstParagraph(rest: string, title: string, k: nat)
    requires var ps := SplitOn(rest, "\n\n");
      k < |ps| && Trim(ps[k]) != "" && forall j :: 0 <= j < k ==> Trim(ps[j]) == ""
    ensures var ps := SplitOn(rest, "\n\n");
      DescriptionFrom(rest, title) == TruncateOnWordBoundary(ReplaceChar(Trim(ps[k]), '\n', ' '), 160)
  {
    var ps := SplitOn(rest, "\n\n");
    NonBlankFirst(ps, k);
    var para := Trim(ps[k]);
    assert FirstTrimmed(NonBlank(ps)) == para;
    assert FirstParagraph(rest) == ReplaceChar(para, '\n', ' ');
    var result := TruncateOnWordBoundary(ReplaceChar(para, '\n', ' '), 160);
    assert result != "";
  }

  /** Without a non-blank paragraph the description falls back to the title. */
  lemma DescriptionFallsBackToTitle(rest: string, title: string)
    requires forall j :: 0 <= j < |SplitOn(rest, "\n\n")| ==> Trim(SplitOn(rest, "\n\n")[j]) == ""
    ensures DescriptionFrom(rest, title) == title
  {
    var ps := SplitOn(rest, "\n\n");
    NonBlankEmpty(ps);
    assert FirstTrimmed(NonBlank(ps)) == "";
    assert FirstParagraph(rest) == "";
    assert TruncateOnWordBoundary(FirstParagraph(rest), 160) == "";
  }
}
