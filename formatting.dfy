/** src/formatting.ts: rendering of entity spans to Markdown and the small
    text utilities shared by the extractors and the converter. */
module Formatting {
  import opened JsString
  import opened Types

  // ---------------------------------------------------------------------
  // Entity rendering
  // ---------------------------------------------------------------------

  /** The kinds whose text is wrapped in fixed markup, with the opening and
      closing delimiters of each. */
  const Delimiters: map<string, (string, string)> := map[
    "bold" := ("**", "**"),
    "italic" := ("*", "*"),
    "spoiler" := ("<span class=\"spoiler\">", "</span>"),
    "bot_command" := ("`", "`"),
    "underline" := ("<u>", "</u>"),
    "strikethrough" := ("~~", "~~"),
    "code" := ("`", "`"),
    "pre" := ("```\n", "\n```")
  ]

  /** The link target as a template string prints it: a missing `href`
      prints as `undefined`. */
  function HrefText(href: Option<string>): (r: string)
    ensures href.Some? ==> r == href.value
    ensures href.None? ==> r == "undefined"
  {
    match href
    case Some(h) => h
    case None => "undefined"
  }

  /** A blockquote: every line of the text prefixed with `> `. */
  function QuoteLines(text: string): string
  {
    Join(PrefixLines(SplitOn(text, "\n")), "\n")
  }

  function PrefixLines(lines: seq<string>): (r: seq<string>)
    ensures |r| == |lines|
    ensures forall i :: 0 <= i < |lines| ==> r[i] == "> " + lines[i]
  {
    seq(|lines|, i requires 0 <= i < |lines| => "> " + lines[i])
  }

  /** The Markdown of one entity, as the `switch` on its type gives it: a
      kind in the delimiter table wraps its text in that kind's markers; a
      blockquote prefixes its lines and a link prints its target; every other
      kind (`plain`, `custom_emoji`, `hashtag`, `mention` or unknown) prints
      its text verbatim. */
  function RenderEntity(e: TextEntity): (r: string)
    ensures e.kind in Delimiters ==> r == Delimiters[e.kind].0 + e.text + Delimiters[e.kind].1
    ensures e.kind !in Delimiters && e.kind != "blockquote" && e.kind != "text_link" ==> r == e.text
    ensures e.kind == "text_link" ==> r == "[" + e.text + "](" + HrefText(e.href) + ")"
    ensures e.kind == "blockquote" ==> r == QuoteLines(e.text)
  {
    if e.kind == "plain" then e.text
    else if e.kind == "bold" then "**" + e.text + "**"
    else if e.kind == "italic" then "*" + e.text + "*"
    else if e.kind == "spoiler" then "<span class=\"spoiler\">" + e.text + "</span>"
    else if e.kind == "blockquote" then QuoteLines(e.text)
    else if e.kind == "text_link" then "[" + e.text + "](" + HrefText(e.href) + ")"
    else if e.kind == "bot_command" then "`" + e.text + "`"
    else if e.kind == "custom_emoji" then e.text
    else if e.kind == "underline" then "<u>" + e.text + "</u>"
    else if e.kind == "strikethrough" then "~~" + e.text + "~~"
    else if e.kind == "code" then "`" + e.text + "`"
    else if e.kind == "pre" then "```\n" + e.text + "\n```"
    else if e.kind == "hashtag" || e.kind == "mention" then e.text
    else e.text
  }

  /** A blockquote has exactly the lines of its text, each prefixed with
      `> `: splitting the output on newlines gives the prefixed input lines. */
  lemma {:induction false} BlockquoteLines(text: string)
    ensures SplitOn(QuoteLines(text), "\n") == PrefixLines(SplitOn(text, "\n"))
    ensures |SplitOn(QuoteLines(text), "\n")| == |SplitOn(text, "\n")|
  {
    var lines := SplitOn(text, "\n");
    SplitPiecesLackSeparator(text, '\n');
    var quoted := PrefixLines(lines);
    forall i | 0 <= i < |quoted| ensures '\n' !in quoted[i] {
      assert quoted[i] == "> " + lines[i];
      assert '\n' !in lines[i];
    }
    SplitJoin(quoted, '\n');
  }

  predicate IsBold(e: TextEntity) {
    e.kind == "bold"
  }

  predicate HasBold(es: seq<TextEntity>) {
    exists i :: 0 <= i < |es| && IsBold(es[i])
  }

  /** The entities rendered one after another, in order. */
  function RenderAll(es: seq<TextEntity>): string
  {
    ConcatMap(RenderEntity, es)
  }

  /** A bold entity renders as its text between `**` markers. */
  lemma RenderBold(e: TextEntity)
    requires IsBold(e)
    ensures RenderEntity(e) == "**" + e.text + "**"
  {
  }

  /** The rendering of a list is the rendering of its head followed by that
      of its tail. */
  lemma RenderAllCons(e: TextEntity, rest: seq<TextEntity>)
    ensures RenderAll([e] + rest) == RenderEntity(e) + RenderAll(rest)
  {
    ConcatMapAppend(RenderEntity, [e], rest);
    assert [e][..0] == [];
  }

  /** The entities without the first one that satisfies `p`. */
  function RemoveFirstWhere(p: TextEntity -> bool, es: seq<TextEntity>): seq<TextEntity>
  {
    if es == [] then []
    else if p(es[0]) then es[1..]
    else [es[0]] + RemoveFirstWhere(p, es[1..])
  }

  /** Exactly the first entity satisfying `p` is dropped; the entities before
      it and every entity after it stay. */
  lemma {:induction false} RemoveFirstWhereSplit(p: TextEntity -> bool, pre: seq<TextEntity>, b: TextEntity, post: seq<TextEntity>)
    requires forall i :: 0 <= i < |pre| ==> !p(pre[i])
    requires p(b)
    ensures RemoveFirstWhere(p, pre + [b] + post) == pre + post
  {
    if pre == [] {
      assert [] + [b] + post == [b] + post;
      assert ([b] + post)[1..] == post;
    } else {
      var es := pre + [b] + post;
      assert es[0] == pre[0] && !p(pre[0]);
      assert es[1..] == pre[1..] + [b] + post;
      forall i | 0 <= i < |pre| - 1
        ensures !p(pre[1..][i])
      {
        assert pre[1..][i] == pre[i + 1];
      }
      RemoveFirstWhereSplit(p, pre[1..], b, post);
      assert pre == [pre[0]] + pre[1..];
    }
  }

  /** The entities without their first `bold` one, wherever it sits. */
  function RemoveFirstBold(es: seq<TextEntity>): seq<TextEntity>
  {
    RemoveFirstWhere(IsBold, es)
  }

  /** One step of the removal: a bold head is dropped, otherwise the head
      stays and the removal goes on in the tail. */
  lemma RemoveFirstBoldStep(es: seq<TextEntity>)
    requires es != []
    ensures RemoveFirstBold(es) ==
      if IsBold(es[0]) then es[1..] else [es[0]] + RemoveFirstBold(es[1..])
  {
  }

  /** A list has a bold entity when its head is bold or its tail has one. */
  lemma HasBoldTail(a: seq<TextEntity>)
    requires a != []
    ensures HasBold(a) <==> IsBold(a[0]) || HasBold(a[1..])
  {
    if HasBold(a) && !IsBold(a[0]) {
      var i :| 0 <= i < |a| && IsBold(a[i]);
      assert a[1..][i - 1] == a[i];
    }
    if HasBold(a[1..]) {
      var i :| 0 <= i < |a[1..]| && IsBold(a[1..][i]);
      assert a[i + 1] == a[1..][i];
    }
  }

  /** Removing the first bold from a list extended by one entity. */
  lemma {:induction false} RemoveFirstBoldSnoc(a: seq<TextEntity>, e: TextEntity)
    ensures RemoveFirstBold(a + [e]) ==
      if HasBold(a) then RemoveFirstBold(a) + [e]
      else if IsBold(e) then a
      else a + [e]
  {
    if a == [] {
      assert [] + [e] == [e];
      assert [e][1..] == [];
      RemoveFirstBoldStep([e]);
    } else {
      assert (a + [e])[0] == a[0];
      assert (a + [e])[1..] == a[1..] + [e];
      RemoveFirstBoldStep(a + [e]);
      RemoveFirstBoldStep(a);
      if IsBold(a[0]) {
        assert HasBold(a);
      } else {
        var t := a[1..];
        RemoveFirstBoldSnoc(t, e);
        HasBoldTail(a);
        assert a == [a[0]] + t;
        assert RemoveFirstBold(a + [e]) == [a[0]] + RemoveFirstBold(t + [e]);
        if HasBold(t) {
          assert RemoveFirstBold(a) == [a[0]] + RemoveFirstBold(t);
          assert [a[0]] + (RemoveFirstBold(t) + [e]) == [a[0]] + RemoveFirstBold(t) + [e];
        } else if !IsBold(e) {
          assert [a[0]] + (t + [e]) == a + [e];
        }
      }
    }
  }

  /** Exactly the first bold entity is dropped: everything before it and
      everything after it, later bolds included, stays in place. */
  lemma RemoveFirstBoldSplit(pre: seq<TextEntity>, b: TextEntity, post: seq<TextEntity>)
    requires !HasBold(pre) && IsBold(b)
    ensures RemoveFirstBold(pre + [b] + post) == pre + post
  {
    RemoveFirstWhereSplit(IsBold, pre, b, post);
  }

  /** Without a bold entity there is nothing to skip. */
  lemma {:induction false} RemoveFirstBoldNone(es: seq<TextEntity>)
    requires !HasBold(es)
    ensures RemoveFirstBold(es) == es
  {
    if es != [] {
      assert !IsBold(es[0]);
      assert !HasBold(es[1..]);
      RemoveFirstBoldStep(es);
      RemoveFirstBoldNone(es[1..]);
      assert es == [es[0]] + es[1..];
    }
  }

  /** With the skip flag set, the first bold entity contributes nothing and
      every other entity, later bolds as `**text**`, is rendered in order. */
  lemma SkipFirstBoldRendering(pre: seq<TextEntity>, b: TextEntity, post: seq<TextEntity>)
    requires !HasBold(pre) && IsBold(b)
    ensures RenderAll(RemoveFirstBold(pre + [b] + post)) == RenderAll(pre) + RenderAll(post)
  {
    RemoveFirstBoldSplit(pre, b, post);
    ConcatMapAppend(RenderEntity, pre, post);
  }

  /** The entities that `convertEntities` renders for a given flag. */
  function Rendered(es: seq<TextEntity>, skipFirstBold: bool): seq<TextEntity>
  {
    if skipFirstBold then RemoveFirstBold(es) else es
  }

  /** One step of the rendering loop: appending an entity either appends its
      rendering, or, for the first bold under the skip flag, nothing. */
  lemma RenderedSnoc(done: seq<TextEntity>, e: TextEntity, skipFirstBold: bool)
    ensures HasBold(done + [e]) <==> HasBold(done) || IsBold(e)
    ensures RenderAll(Rendered(done + [e], skipFirstBold)) ==
      if skipFirstBold && !HasBold(done) && IsBold(e) then RenderAll(Rendered(done, skipFirstBold))
      else RenderAll(Rendered(done, skipFirstBold)) + RenderEntity(e)
  {
    RemoveFirstBoldSnoc(done, e);
    if !HasBold(done) {
      RemoveFirstBoldNone(done);
    }
    assert HasBold(done + [e]) <==> HasBold(done) || IsBold(e) by {
      if HasBold(done + [e]) {
        var j :| 0 <= j < |done| + 1 && IsBold((done + [e])[j]);
        if j < |done| {
          assert done[j] == (done + [e])[j];
        }
      }
      if HasBold(done) {
        var j :| 0 <= j < |done| && IsBold(done[j]);
        assert (done + [e])[j] == done[j];
      }
      if IsBold(e) {
        assert (done + [e])[|done|] == e;
      }
    }
    var d := Rendered(done, skipFirstBold);
    assert (d + [e])[..|d|] == d;
    assert RenderAll(d + [e]) == RenderAll(d) + RenderEntity(e);
  }

  /** `convertEntities`: renders the entities in order; with `skipFirstBold`
      the first bold entity (the title) is left out, once. */
  method ConvertEntities(entities: seq<TextEntity>, skipFirstBold: bool) returns (result: string)
    ensures result == RenderAll(Rendered(entities, skipFirstBold))
  {
    result := "";
    var firstBoldSkipped := false;
    for i := 0 to |entities|
      invariant firstBoldSkipped <==> skipFirstBold && HasBold(entities[..i])
      invariant result == RenderAll(Rendered(entities[..i], skipFirstBold))
    {
      var entity := entities[i];
      assert entities[..i + 1] == entities[..i] + [entity];
      RenderedSnoc(entities[..i], entity, skipFirstBold);
      if entity.kind == "bold" && skipFirstBold && !firstBoldSkipped {
        firstBoldSkipped := true;
        continue;
      }
      result := result + RenderEntity(entity);
    }
    assert entities[..|entities|] == entities;
  }

  // ---------------------------------------------------------------------
  // Dates, YAML quoting, image paths
  // ---------------------------------------------------------------------

  predicate IsLetter(c: char) {
    'A' <= c <= 'Z' || 'a' <= c <= 'z'
  }

  const MonthNames: seq<string> :=
    ["Jan", "Feb", "Mar", "Apr", "May", "Jun", "Jul", "Aug", "Sep", "Oct", "Nov", "Dec"]

  predicate AllDigits(s: string) {
    forall i :: 0 <= i < |s| ==> IsDigit(s[i])
  }

  predicate IsLeapYear(y: nat) {
    y % 4 == 0 && (y % 100 != 0 || y % 400 == 0)
  }

  function DaysInMonth(y: nat, m: nat): nat
    requires 1 <= m <= 12
  {
    if m == 2 then (if IsLeapYear(y) then 29 else 28)
    else if m == 4 || m == 6 || m == 9 || m == 11 then 30
    else 31
  }

  /** The shape `YYYY-MM-DDTHH:MM:SS` with digits where digits belong. */
  predicate HasDateShape(s: string) {
    |s| == 19 && s[4] == '-' && s[7] == '-' && s[10] == 'T' && s[13] == ':' && s[16] == ':'
    && AllDigits(s[0..4]) && AllDigits(s[5..7]) && AllDigits(s[8..10])
    && AllDigits(s[11..13]) && AllDigits(s[14..16]) && AllDigits(s[17..19])
  }

  function Year(s: string): nat requires HasDateShape(s) { ParseDigits(s[0..4]) }
  function Month(s: string): nat requires HasDateShape(s) { ParseDigits(s[5..7]) }
  function Day(s: string): nat requires HasDateShape(s) { ParseDigits(s[8..10]) }

  /** A local date-time `YYYY-MM-DDTHH:MM:SS` naming a real calendar instant. */
  predicate IsWellFormedDate(s: string) {
    && HasDateShape(s)
    && 1 <= Month(s) <= 12
    && 1 <= Day(s) <= DaysInMonth(Year(s), Month(s))
    && ParseDigits(s[11..13]) <= 23 && ParseDigits(s[14..16]) <= 59 && ParseDigits(s[17..19]) <= 59
  }

  /** Every character of a formatted date is a space, a digit or a letter. */
  predicate IsDateText(s: string) {
    forall i :: 0 <= i < |s| ==> s[i] == ' ' || IsDigit(s[i]) || IsLetter(s[i])
  }

  lemma MonthNamesAreLetters(m: nat)
    requires m < 12
    ensures IsDateText(MonthNames[m])
  {
  }

  lemma DateTextConcat(a: string, b: string)
    requires IsDateText(a) && IsDateText(b)
    ensures IsDateText(a + b)
  {
    assert forall i :: 0 <= i < |a + b| ==> (a + b)[i] == if i < |a| then a[i] else b[i - |a|];
  }

  /** `String(n).padStart(2, '0')`. */
  function PadTwo(n: nat): (r: string)
    ensures forall i :: 0 <= i < |r| ==> IsDigit(r[i])
  {
    var d := NatToString(n);
    if |d| < 2 then "0" + d else d
  }

  /** `formatAstroDate`: `Mon DD YYYY` from the month table, the
      zero-padded day and the year. A string outside the modelled format is
      an Invalid Date, which prints as `undefined NaN NaN`. */
  function FormatAstroDate(dateStr: string): (r: string)
    ensures IsDateText(r)
  {
    if IsWellFormedDate(dateStr) then
      var m := Month(dateStr) - 1;
      var day := PadTwo(Day(dateStr));
      var year := NatToString(Year(dateStr));
      MonthNamesAreLetters(m);
      DateTextConcat(MonthNames[m], " ");
      DateTextConcat(MonthNames[m] + " ", day);
      DateTextConcat(MonthNames[m] + " " + day, " ");
      DateTextConcat(MonthNames[m] + " " + day + " ", year);
      MonthNames[m] + " " + day + " " + year
    else
      "undefined NaN NaN"
  }

  /** For a well-formed date with a four-digit year, the formatted date is the
      month's abbreviation, the day and the year exactly as written in the
      input. */
  lemma FormatAstroDateFields(s: string)
    requires IsWellFormedDate(s) && s[0] != '0'
    ensures FormatAstroDate(s) == MonthNames[Month(s) - 1] + " " + s[8..10] + " " + s[0..4]
  {
    NatToStringParseDigits(s[0..4]);
    var dd := s[8..10];
    if dd[0] == '0' {
      assert dd[..1] == "0";
      assert ParseDigits(dd) == ParseDigits(dd[1..]) by {
        assert dd[..|dd| - 1] == dd[..1];
        assert ParseDigits(dd[..1]) == 0 by { assert dd[..1][..0] == []; }
        assert dd[1..] == [dd[1]];
        assert ParseDigits(dd[1..]) == DigitValue(dd[1]) by { assert dd[1..][..0] == []; }
      }
      assert dd[1] != '0';
      NatToStringParseDigits(dd[1..]);
      assert dd == "0" + dd[1..];
    } else {
      NatToStringParseDigits(dd);
    }
  }

  /** `escapeYaml`: every single quote doubled. */
  function EscapeYaml(value: string): (r: string)
    ensures |r| == |value| + CountChar(value, '\'')
    ensures '\'' !in value ==> r == value
  {
    if value == [] then []
    else (if value[0] == '\'' then "''" else [value[0]]) + EscapeYaml(value[1..])
  }

  /** What a YAML reader does to a single-quoted scalar: `''` reads as `'`. */
  function UnescapeYaml(s: string): string
  {
    if |s| >= 2 && s[0] == '\'' && s[1] == '\'' then "'" + UnescapeYaml(s[2..])
    else if s == [] then []
    else [s[0]] + UnescapeYaml(s[1..])
  }

  /** Reading back an escaped value gives the value. */
  lemma {:induction false} UnescapeEscapeYaml(value: string)
    ensures UnescapeYaml(EscapeYaml(value)) == value
  {
    if value != [] {
      var rest := EscapeYaml(value[1..]);
      UnescapeEscapeYaml(value[1..]);
      if value[0] == '\'' {
        assert ("''" + rest)[2..] == rest;
      } else {
        assert ([value[0]] + rest)[1..] == rest;
      }
      assert value == [value[0]] + value[1..];
    }
  }

  /** Escaping introduces no character but the quote. */
  lemma {:induction false} EscapeYamlKeepsOut(value: string, c: char)
    requires c != '\'' && c !in value
    ensures c !in EscapeYaml(value)
  {
    if value != [] {
      EscapeYamlKeepsOut(value[1..], c);
    }
  }

  /** A quote-free scalar reads back as written. */
  lemma {:induction false} UnescapeYamlPlain(s: string)
    requires '\'' !in s
    ensures UnescapeYaml(s) == s
  {
    if s != [] {
      UnescapeYamlPlain(s[1..]);
      assert s == [s[0]] + s[1..];
    }
  }

  /** `photoPath.split('/').pop()`. */
  function BaseName(photoPath: string): (b: string)
    ensures |b| <= |photoPath| && b == photoPath[|photoPath| - |b|..]
    ensures '/' !in b
    ensures b == photoPath || photoPath[|photoPath| - |b| - 1] == '/'
  {
    var parts := SplitOn(photoPath, "/");
    LastPieceIsSuffix(photoPath, '/');
    SplitPiecesLackSeparator(photoPath, '/');
    parts[|parts| - 1]
  }

  /** `getPhotoImagePath`: `/images/` followed by the file's base name. */
  function GetPhotoImagePath(photoPath: string): (r: string)
    ensures |r| >= 8 && r[..8] == "/images/" && r[8..] == BaseName(photoPath)
  {
    "/images/" + BaseName(photoPath)
  }

  // ---------------------------------------------------------------------
  // Truncation and sentences
  // ---------------------------------------------------------------------

  /** The characters `[,;:!?.\-–—]` stripped before the ellipsis. */
  const TrailingPunctuation: set<char> := {',', ';', ':', '!', '?', '.', '-', '–', '—'}

  /** `s.replace(/[,;:!?.\-–—]+$/, '')`: drops the trailing punctuation run. */
  function StripTrailingPunctuation(s: string): (r: string)
    ensures r <= s
    ensures r == [] || r[|r| - 1] !in TrailingPunctuation
    ensures forall i :: |r| <= i < |s| ==> s[i] in TrailingPunctuation
  {
    if s != [] && s[|s| - 1] in TrailingPunctuation then StripTrailingPunctuation(s[..|s| - 1]) else s
  }

  /** Where an over-long text is cut: at the last space among its first
      `maxLen` characters when that space lies past half the limit
      (`lastSpace > maxLen * 0.5`), else at `maxLen`. */
  function CutPoint(text: string, maxLen: nat): (c: nat)
    requires |text| > maxLen
    ensures c <= maxLen
  {
    var lastSpace := LastIndexOf(text[..maxLen], ' ');
    if 2 * lastSpace > maxLen then lastSpace else maxLen
  }

  /** `truncateOnWordBoundary`. */
  function TruncateOnWordBoundary(text: string, maxLen: nat): (r: string)
    ensures |text| <= maxLen ==> r == text
    ensures |text| > maxLen ==>
      && |r| >= 3 && r[|r| - 3..] == "..."
      && r[..|r| - 3] <= text && |r| - 3 <= maxLen
      && (r[..|r| - 3] == [] || r[|r| - 4] !in TrailingPunctuation)
    ensures |r| <= maxLen + 3
    ensures text != [] ==> r != []
  {
    if |text| <= maxLen then text
    else
      var clean := StripTrailingPunctuation(text[..CutPoint(text, maxLen)]);
      assert (clean + "...")[..|clean|] == clean;
      clean + "..."
  }

  /** Truncation adds no character but `.`: a character other than `.` that
      is absent from the text is absent from the result. */
  lemma TruncateAddsNothing(text: string, maxLen: nat, c: char)
    requires c !in text && c != '.'
    ensures c !in TruncateOnWordBoundary(text, maxLen)
  {
    var r := TruncateOnWordBoundary(text, maxLen);
    if |text| > maxLen {
      var p := r[..|r| - 3];
      assert r == p + "...";
      assert forall i :: 0 <= i < |p| ==> p[i] == text[i];
    }
  }

  /** When the last space among the first `maxLen` characters lies past half
      the limit, the text is cut there, and only punctuation is dropped. */
  lemma TruncateAtSpace(text: string, maxLen: nat, j: nat)
    requires |text| > maxLen && j < maxLen && text[j] == ' ' && 2 * j > maxLen
    requires forall k :: j < k < maxLen ==> text[k] != ' '
    ensures TruncateOnWordBoundary(text, maxLen) == StripTrailingPunctuation(text[..j]) + "..."
  {
    var s := text[..maxLen];
    assert s[j] == ' ';
    assert forall k :: j < k < |s| ==> s[k] == text[k];
    assert text[..maxLen][..j] == text[..j];
  }

  /** When no space lies past half the limit, the text is cut at the limit. */
  lemma TruncateAtLimit(text: string, maxLen: nat)
    requires |text| > maxLen
    requires forall k :: 0 <= k < maxLen && text[k] == ' ' ==> 2 * k <= maxLen
    ensures TruncateOnWordBoundary(text, maxLen) == StripTrailingPunctuation(text[..maxLen]) + "..."
  {
    var s := text[..maxLen];
    var ls := LastIndexOf(s, ' ');
    if ls >= 0 {
      assert text[ls] == s[ls];
    }
  }

  const SentenceEnders: set<char> := {'.', '!', '?'}

  /** Position `i` ends the first sentence in the sense of
      `/^(.+?[.!?])(?:\s|$)/s`: at least one character before it, one of
      `.!?` at it, and whitespace or the end of the text after it. */
  predicate IsSentenceEnd(t: string, i: int) {
    1 <= i < |t| && t[i] in SentenceEnders && (i + 1 == |t| || IsWhitespace(t[i + 1]))
  }

  /** The least sentence end at or after `from`, or -1. */
  function FirstSentenceEnd(t: string, from: nat): (r: int)
    ensures r == -1 || (from <= r && IsSentenceEnd(t, r))
    ensures forall j :: from <= j && (r == -1 || j < r) ==> !IsSentenceEnd(t, j)
    decreases |t| - from
  {
    if from >= |t| then -1
    else if IsSentenceEnd(t, from) then from
    else FirstSentenceEnd(t, from + 1)
  }

  /** `extractFirstSentence`: the trimmed shortest prefix that ends a
      sentence, or the whole trimmed text; empty exactly for blank input. */
  function ExtractFirstSentence(text: string): (r: string)
    ensures r == [] <==> AllWhitespace(text)
  {
    var i := FirstSentenceEnd(text, 1);
    if i == -1 then Trim(text)
    else
      assert text[..i + 1][i] == text[i] && !IsWhitespace(text[i]);
      Trim(text[..i + 1])
  }

  /** The lazy match stops at the first sentence end. */
  lemma FirstSentenceIsShortest(t: string, i: nat)
    requires IsSentenceEnd(t, i)
    requires forall j :: 1 <= j < i ==> !IsSentenceEnd(t, j)
    ensures ExtractFirstSentence(t) == Trim(t[..i + 1])
  {
    var r := FirstSentenceEnd(t, 1);
    assert r != -1 && r <= i;
    assert r == i;
    assert ExtractFirstSentence(t) == Trim(t[..r + 1]);
  }

  /** Without a sentence end the whole text, trimmed, is the sentence. */
  lemma NoSentenceEnd(t: string)
    requires forall i :: !IsSentenceEnd(t, i)
    ensures ExtractFirstSentence(t) == Trim(t)
  {
  }
}
