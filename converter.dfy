/** src/converter.ts: one message becomes one Astro Markdown document — a
    file name, a YAML front-matter block and a body. */
module Converter {
  import opened JsString
  import opened Types
  import opened Formatting
  import opened Extractors

  /** `date.substring(0, 10)`: the `YYYY-MM-DD` part, or the whole string
      when it is shorter. */
  function DatePrefix(date: string): (r: string)
    ensures r <= date
    ensures |r| == if |date| < 10 then |date| else 10
  {
    if |date| < 10 then date else date[..10]
  }

  /** `generateFilename`: `YYYY-MM-DD-<slug>.md`. The slug function is not
      part of this model and is supplied by the caller. */
  function GenerateFilename(msg: Message, slugify: string -> string): (r: string)
    ensures |r| >= 4 && r[|r| - 3..] == ".md"
    ensures DatePrefix(msg.date) + "-" <= r
    ensures |r| == |DatePrefix(msg.date)| + |slugify(ExtractTitle(msg))| + 4
    ensures r[|DatePrefix(msg.date)| + 1..|r| - 3] == slugify(ExtractTitle(msg))
  {
    var prefix := DatePrefix(msg.date) + "-";
    var slug := slugify(ExtractTitle(msg));
    var r := prefix + slug + ".md";
    assert r[..|prefix|] == prefix;
    assert r[|prefix|..|r| - 3] == slug;
    r
  }

  // ---------------------------------------------------------------------
  // Front matter
  // ---------------------------------------------------------------------

  /** `key: 'value'`, a single-quoted YAML scalar line. */
  function QuotedLine(key: string, value: string): string
  {
    key + ": '" + value + "'"
  }

  /** `heroImage`: the image path of a present, non-empty photo path. */
  function HeroImage(photo: Option<string>): (r: Option<string>)
    ensures r.Some? <==> IsTruthy(photo)
  {
    if IsTruthy(photo) then Some(GetPhotoImagePath(photo.value)) else None
  }

  /** The lines of the front-matter block in their fixed order; title and
      description escaped, the date and the image path as they are, and the
      `heroImage` line only when there is an image. */
  function FrontmatterLines(title: string, description: string, pubDate: string, heroImage: Option<string>): seq<string>
  {
    ["---",
     QuotedLine("title", EscapeYaml(title)),
     QuotedLine("description", EscapeYaml(description)),
     QuotedLine("pubDate", pubDate)]
    + (if heroImage.Some? then [QuotedLine("heroImage", heroImage.value)] else [])
    + ["---"]
  }

  /** A block that opens with a `---` line and closes with one. */
  predicate IsDelimitedBlock(r: string) {
    |r| >= 8 && r[..4] == "---\n" && r[|r| - 4..] == "\n---"
  }

  /** Whatever the values, the joined block opens with a `---` line and
      closes with one. */
  lemma FrontmatterDelimited(title: string, description: string, pubDate: string, heroImage: Option<string>)
    ensures IsDelimitedBlock(Join(FrontmatterLines(title, description, pubDate, heroImage), "\n"))
  {
    var lines := FrontmatterLines(title, description, pubDate, heroImage);
    var inner := lines[..|lines| - 1];
    assert lines == inner + ["---"];
    JoinSnoc(inner, "---", "\n");
    JoinCons("---", inner[1..], "\n");
    assert inner == ["---"] + inner[1..];
  }

  /** `buildFrontmatter`: the lines joined with newlines, between a `---`
      line at the top and one at the bottom. */
  function BuildFrontmatter(msg: Message): (r: string)
    ensures IsDelimitedBlock(r)
  {
    var title := ExtractTitle(msg);
    var description := ExtractDescription(msg);
    var pubDate := FormatAstroDate(msg.date);
    var heroImage := HeroImage(msg.photo);
    FrontmatterDelimited(title, description, pubDate, heroImage);
    Join(FrontmatterLines(title, description, pubDate, heroImage), "\n")
  }

  /** A YAML reader's view of a `key: '...'` line: the unescaped scalar, or
      nothing when the line does not have that shape. */
  function ReadQuoted(line: string, key: string): Option<string>
  {
    var open := key + ": '";
    if |line| > |open| && line[..|open|] == open && line[|line| - 1] == '\'' then
      Some(UnescapeYaml(line[|open|..|line| - 1]))
    else None
  }

  /** A quoted line holding an escaped value reads back as the value. */
  lemma ReadQuotedLine(key: string, value: string)
    ensures ReadQuoted(QuotedLine(key, EscapeYaml(value)), key) == Some(value)
  {
    var open := key + ": '";
    var line := QuotedLine(key, EscapeYaml(value));
    assert line[..|open|] == open;
    assert line[|open|..|line| - 1] == EscapeYaml(value);
    UnescapeEscapeYaml(value);
  }

  /** A quote-free value reads back from an unescaped quoted line. */
  lemma ReadPlainLine(key: string, value: string)
    requires '\'' !in value
    ensures ReadQuoted(QuotedLine(key, value), key) == Some(value)
  {
    var open := key + ": '";
    var line := QuotedLine(key, value);
    assert line[..|open|] == open;
    assert line[|open|..|line| - 1] == value;
    UnescapeYamlPlain(value);
  }

  lemma QuotedLineKeepsOutNewline(key: string, value: string)
    requires '\n' !in key && '\n' !in value
    ensures '\n' !in QuotedLine(key, value)
  {
  }

  /** Reading the front matter back: split on newlines it has five lines, or
      six with an image; it opens and closes with `---`; and title,
      description, date and image path read back from their quoted lines.
      The title and description are escaped and so read back whatever their
      quotes; the date and the image path are not escaped and read back only
      when they hold no quote. */
  lemma {:induction false} FrontmatterReadsBack(title: string, description: string, pubDate: string, heroImage: Option<string>)
    requires '\n' !in title && '\n' !in description
    requires '\n' !in pubDate && '\'' !in pubDate
    requires heroImage.Some? ==> '\n' !in heroImage.value && '\'' !in heroImage.value
    ensures var lines := SplitOn(Join(FrontmatterLines(title, description, pubDate, heroImage), "\n"), "\n");
      && |lines| == (if heroImage.Some? then 6 else 5)
      && lines[0] == "---" && lines[|lines| - 1] == "---"
      && ReadQuoted(lines[1], "title") == Some(title)
      && ReadQuoted(lines[2], "description") == Some(description)
      && ReadQuoted(lines[3], "pubDate") == Some(pubDate)
      && (heroImage.Some? ==> ReadQuoted(lines[4], "heroImage") == heroImage)
  {
    var lines := FrontmatterLines(title, description, pubDate, heroImage);
    FrontmatterLinesSingle(title, description, pubDate, heroImage);
    SplitJoin(lines, '\n');
    FrontmatterFields(title, description, pubDate, heroImage);
  }

  /** Each value reads back from its own line. */
  lemma FrontmatterFields(title: string, description: string, pubDate: string, heroImage: Option<string>)
    requires '\'' !in pubDate
    requires heroImage.Some? ==> '\'' !in heroImage.value
    ensures var lines := FrontmatterLines(title, description, pubDate, heroImage);
      && |lines| == (if heroImage.Some? then 6 else 5)
      && lines[0] == "---" && lines[|lines| - 1] == "---"
      && ReadQuoted(lines[1], "title") == Some(title)
      && ReadQuoted(lines[2], "description") == Some(description)
      && ReadQuoted(lines[3], "pubDate") == Some(pubDate)
      && (heroImage.Some? ==> ReadQuoted(lines[4], "heroImage") == heroImage)
  {
    var t := QuotedLine("title", EscapeYaml(title));
    var d := QuotedLine("description", EscapeYaml(description));
    var p := QuotedLine("pubDate", pubDate);
    ReadQuotedLine("title", title);
    ReadQuotedLine("description", description);
    ReadPlainLine("pubDate", pubDate);
    var h := if heroImage.Some? then [QuotedLine("heroImage", heroImage.value)] else [];
    if heroImage.Some? {
      ReadPlainLine("heroImage", heroImage.value);
    }
    FrontmatterLinesShape(t, d, p, h);
  }

  /** Where each line sits in the block. */
  lemma FrontmatterLinesShape(t: string, d: string, p: string, h: seq<string>)
    requires |h| <= 1
    ensures var lines := ["---", t, d, p] + h + ["---"];
      && |lines| == 5 + |h|
      && lines[0] == "---" && lines[|lines| - 1] == "---"
      && lines[1] == t && lines[2] == d && lines[3] == p
      && (|h| == 1 ==> lines[4] == h[0])
  {
  }

  /** No front-matter line holds a newline when no value does. */
  lemma FrontmatterLinesSingle(title: string, description: string, pubDate: string, heroImage: Option<string>)
    requires '\n' !in title && '\n' !in description && '\n' !in pubDate
    requires heroImage.Some? ==> '\n' !in heroImage.value
    ensures var lines := FrontmatterLines(title, description, pubDate, heroImage);
      forall i :: 0 <= i < |lines| ==> '\n' !in lines[i]
  {
    var t := QuotedLine("title", EscapeYaml(title));
    var d := QuotedLine("description", EscapeYaml(description));
    var p := QuotedLine("pubDate", pubDate);
    EscapeYamlKeepsOut(title, '\n');
    EscapeYamlKeepsOut(description, '\n');
    QuotedLineKeepsOutNewline("title", EscapeYaml(title));
    QuotedLineKeepsOutNewline("description", EscapeYaml(description));
    QuotedLineKeepsOutNewline("pubDate", pubDate);
    var h := if heroImage.Some? then [QuotedLine("heroImage", heroImage.value)] else [];
    if heroImage.Some? {
      QuotedLineKeepsOutNewline("heroImage", heroImage.value);
    }
    LinesLackNewline(t, d, p, h);
    assert FrontmatterLines(title, description, pubDate, heroImage) == ["---", t, d, p] + h + ["---"];
  }

  lemma LinesLackNewline(t: string, d: string, p: string, h: seq<string>)
    requires '\n' !in t && '\n' !in d && '\n' !in p
    requires |h| <= 1 && forall i :: 0 <= i < |h| ==> '\n' !in h[i]
    ensures var lines := ["---", t, d, p] + h + ["---"];
      forall i :: 0 <= i < |lines| ==> '\n' !in lines[i]
  {
    var lines := ["---", t, d, p] + h + ["---"];
    forall i | 0 <= i < |lines|
      ensures '\n' !in lines[i]
    {
      if 4 <= i < 4 + |h| {
        assert lines[i] == h[i - 4];
      }
    }
  }

  /** A message's front matter reads back to its title, description, formatted
      date and, exactly when it has a photo, the photo's image path. */
  lemma MessageFrontmatterReadsBack(msg: Message)
    requires '\n' !in ExtractTitle(msg) && '\n' !in ExtractDescription(msg)
    requires IsTruthy(msg.photo) ==> '\n' !in msg.photo.value && '\'' !in msg.photo.value
    ensures var lines := SplitOn(BuildFrontmatter(msg), "\n");
      && |lines| == (if IsTruthy(msg.photo) then 6 else 5)
      && ReadQuoted(lines[1], "title") == Some(ExtractTitle(msg))
      && ReadQuoted(lines[2], "description") == Some(ExtractDescription(msg))
      && ReadQuoted(lines[3], "pubDate") == Some(FormatAstroDate(msg.date))
      && (IsTruthy(msg.photo) ==> ReadQuoted(lines[4], "heroImage") == Some(GetPhotoImagePath(msg.photo.value)))
  {
    FormatAstroDateUnquoted(msg.date);
    if IsTruthy(msg.photo) {
      PhotoImagePathUnquoted(msg.photo.value);
    }
    FrontmatterReadsBack(ExtractTitle(msg), ExtractDescription(msg), FormatAstroDate(msg.date), HeroImage(msg.photo));
  }

  lemma FormatAstroDateUnquoted(date: string)
    ensures '\n' !in FormatAstroDate(date) && '\'' !in FormatAstroDate(date)
  {
    var d := FormatAstroDate(date);
    assert forall i :: 0 <= i < |d| ==> d[i] != '\n' && d[i] != '\'';
  }

  lemma PhotoImagePathUnquoted(photo: string)
    requires '\n' !in photo && '\'' !in photo
    ensures '\n' !in GetPhotoImagePath(photo) && '\'' !in GetPhotoImagePath(photo)
  {
    var p := GetPhotoImagePath(photo);
    var b := BaseName(photo);
    assert p == "/images/" + b;
    assert forall i :: 0 <= i < |b| ==> b[i] == photo[|photo| - |b| + i];
  }

  // ---------------------------------------------------------------------
  // Body and document
  // ---------------------------------------------------------------------

  /** No prefix of `t` is whitespace ending in a newline: the pattern
      `^\s*\n` does not match it. */
  predicate NoBlankLead(t: string) {
    forall i :: 0 <= i < |t| && t[i] == '\n' ==> !AllWhitespace(t[..i])
  }

  /** The length of the leading whitespace run. */
  function LeadingRun(s: string): (w: nat)
    ensures w <= |s| && AllWhitespace(s[..w])
    ensures w < |s| ==> !IsWhitespace(s[w])
  {
    |s| - |TrimStart(s)|
  }

  /** Every whitespace prefix lies within the leading run. */
  lemma WhitespacePrefixWithinRun(s: string, p: nat)
    requires p <= |s| && AllWhitespace(s[..p])
    ensures p <= LeadingRun(s)
  {
    var w := LeadingRun(s);
    assert p <= w by {
      assert forall j :: 0 <= j < p ==> IsWhitespace(s[j]) by {
        assert forall j :: 0 <= j < p ==> s[..p][j] == s[j];
      }
    }
  }

  /** `s.replace(/^\s*\n/, '')`: the longest whitespace prefix that ends in
      a newline is removed; the rest of the leading whitespace stays. */
  function StripLeadingBlank(s: string): (r: string)
    ensures |r| <= |s| && r == s[|s| - |r|..]
    ensures r == s || (AllWhitespace(s[..|s| - |r|]) && s[|s| - |r| - 1] == '\n')
  {
    var w := LeadingRun(s);
    var k := LastIndexOf(s[..w], '\n');
    assert k != -1 ==> s[..k + 1] == s[..w][..k + 1] && s[k] == s[..w][k];
    if k == -1 then s else s[k + 1..]
  }

  /** The removed prefix is the longest one: what remains no longer starts
      with whitespace ending in a newline. Stripping twice is therefore
      stripping once. */
  lemma StripLeadingBlankMaximal(s: string)
    ensures NoBlankLead(StripLeadingBlank(s))
  {
    var w := LeadingRun(s);
    var k := LastIndexOf(s[..w], '\n');
    var r := StripLeadingBlank(s);
    var off := |s| - |r|;
    if k == -1 {
      assert off == 0 && s[..off] == [];
    } else {
      assert off == k + 1;
      assert s[..off] == s[..w][..off];
    }
    assert AllWhitespace(s[..off]);
    forall j | off <= j < w
      ensures s[j] != '\n'
    {
      assert s[..w][j] == s[j];
    }
    forall i | 0 <= i < |r| && r[i] == '\n' ensures !AllWhitespace(r[..i]) {
      BlankLeadReachesNewline(s, off, i);
    }
  }

  /** A blank lead of the suffix at `off`, extended by a blank prefix before
      `off`, is a blank prefix of `s`, so it cannot reach past the leading run. */
  lemma BlankLeadReachesNewline(s: string, off: nat, i: nat)
    requires off + i < |s| && AllWhitespace(s[..off])
    requires forall j :: off <= j < LeadingRun(s) ==> s[j] != '\n'
    requires s[off + i] == '\n'
    ensures !AllWhitespace(s[off..][..i])
  {
    var q := off + i + 1;
    var r := s[off..];
    assert s[..q] == s[..off] + r[..i] + [s[off + i]];
    if AllWhitespace(r[..i]) {
      AllWhitespaceConcat(s[..off], r[..i]);
      AllWhitespaceConcat(s[..off] + r[..i], [s[off + i]]);
      WhitespacePrefixWithinRun(s, q);
    }
  }

  /** A string the pattern does not match is left unchanged. */
  lemma StripLeadingBlankNoMatch(s: string)
    requires NoBlankLead(s)
    ensures StripLeadingBlank(s) == s
  {
    var w := LeadingRun(s);
    var k := LastIndexOf(s[..w], '\n');
    forall j | 0 <= j <= w ensures AllWhitespace(s[..j]) {
      assert forall t :: 0 <= t < j ==> s[..j][t] == s[..w][t];
    }
    assert forall j :: 0 <= j < w ==> s[..w][j] == s[j];
  }

  /** `r` is the front matter, a blank line, a suffix of the rendered body
      and a final newline. */
  predicate IsDocumentAround(r: string, frontmatter: string, rendered: string) {
    && |r| >= 1 && r[|r| - 1] == '\n'
    && frontmatter + "\n\n" <= r
    && var start := |frontmatter| + 2;
      && start <= |r| - 1
      && |r| - 1 - start <= |rendered|
      && r[start..|r| - 1] == rendered[|rendered| - (|r| - 1 - start)..]
  }

  /** Any suffix of the rendering, placed after the front matter and a blank
      line and followed by a newline, gives a document around that
      rendering. */
  lemma DocumentAroundSuffix(frontmatter: string, body: string, rendered: string)
    requires |body| <= |rendered| && body == rendered[|rendered| - |body|..]
    ensures IsDocumentAround(frontmatter + "\n\n" + body + "\n", frontmatter, rendered)
  {
    var head := frontmatter + "\n\n";
    var r := head + body + "\n";
    assert r[..|head|] == head;
    assert r[|head|..|r| - 1] == body;
  }

  /** The document around a rendered body: the front matter, a blank line,
      the body with its leading blank lines removed, and a final newline.
      The text between the blank line and the final newline is a suffix of
      the rendering: nothing, in particular no image reference, is added;
      which suffix is fixed by `StripLeadingBlank`, whose value its
      contract and `StripLeadingBlankMaximal` determine. */
  function Document(frontmatter: string, rendered: string): (r: string)
    ensures IsDocumentAround(r, frontmatter, rendered)
    ensures r == frontmatter + "\n\n" + StripLeadingBlank(rendered) + "\n"
  {
    var body := StripLeadingBlank(rendered);
    DocumentAroundSuffix(frontmatter, body, rendered);
    frontmatter + "\n\n" + body + "\n"
  }

  /** `convertMessage`: the body is the entities rendered with the first
      bold span skipped, since that span is the title in the front matter. */
  function ConvertMessage(msg: Message): (r: string)
    ensures IsDocumentAround(r, BuildFrontmatter(msg), RenderAll(Rendered(msg.entities, true)))
    ensures r == BuildFrontmatter(msg) + "\n\n" + StripLeadingBlank(RenderAll(Rendered(msg.entities, true))) + "\n"
  {
    Document(BuildFrontmatter(msg), RenderAll(Rendered(msg.entities, true)))
  }

  // ---------------------------------------------------------------------
  // The skipped bold and the title
  // ---------------------------------------------------------------------

  /** The body skips the first bold entity even when it is blank, while the
      title comes from the first bold entity that is not blank. A message
      opening with a blank bold entity and then a titled one (for example
      ` ` and `Title`) gets that title in the front matter, and the body
      starts with the same title in bold. */
  lemma BlankBoldTitleRepeated(msg: Message)
    requires |msg.entities| >= 2
    requires IsBold(msg.entities[0]) && !IsTitleBold(msg.entities[0])
    requires IsTitleBold(msg.entities[1])
    ensures ExtractTitle(msg) == Trim(msg.entities[1].text)
    ensures RenderAll(Rendered(msg.entities, true)) ==
      "**" + msg.entities[1].text + "**" + RenderAll(msg.entities[2..])
  {
    var es := msg.entities;
    forall j | 0 <= j < 1
      ensures !IsTitleBold(es[j])
    {
      assert j == 0;
    }
    FirstBoldTitleAt(es, 1);
    assert Rendered(es, true) == es[1..];
    SuffixAt(es, 1);
    RenderAllCons(es[1], es[2..]);
    RenderBold(es[1]);
  }

  /** A sequence is its part before `k`, its element at `k` and its part
      after `k`. */
  lemma SplitAround<T>(s: seq<T>, k: nat)
    requires k < |s|
    ensures s == s[..k] + [s[k]] + s[k + 1..]
  {
  }

  /** The suffix from `k` is the element at `k` followed by the suffix after
      it. */
  lemma SuffixAt<T>(s: seq<T>, k: nat)
    requires k < |s|
    ensures s[k..] == [s[k]] + s[k + 1..]
  {
  }

  /** The entities without the one the title was taken from: the first bold
      entity whose text is not blank. */
  function RemoveTitleBold(es: seq<TextEntity>): seq<TextEntity>
  {
    RemoveFirstWhere(IsTitleBold, es)
  }

  /** `convertMessage` as its own comment describes it: the body leaves out
      the bold entity the title was taken from. */
  function ConvertMessageSkippingTitle(msg: Message): (r: string)
    ensures IsDocumentAround(r, BuildFrontmatter(msg), RenderAll(RemoveTitleBold(msg.entities)))
    ensures r == BuildFrontmatter(msg) + "\n\n" + StripLeadingBlank(RenderAll(RemoveTitleBold(msg.entities))) + "\n"
  {
    Document(BuildFrontmatter(msg), RenderAll(RemoveTitleBold(msg.entities)))
  }

  /** When the title comes from the entity at `k`, the corrected body renders
      every entity except that one, in order. */
  lemma TitleEntityNotRendered(msg: Message, k: nat)
    requires k < |msg.entities| && IsTitleBold(msg.entities[k])
    requires forall j :: 0 <= j < k ==> !IsTitleBold(msg.entities[j])
    ensures ExtractTitle(msg) == Trim(msg.entities[k].text)
    ensures RenderAll(RemoveTitleBold(msg.entities)) ==
      RenderAll(msg.entities[..k]) + RenderAll(msg.entities[k + 1..])
  {
    var es := msg.entities;
    FirstBoldTitleAt(es, k);
    SplitAround(es, k);
    RemoveFirstWhereSplit(IsTitleBold, es[..k], es[k], es[k + 1..]);
    ConcatMapAppend(RenderEntity, es[..k], es[k + 1..]);
  }

  /** When no blank bold entity precedes the title's, the source's skip and
      the corrected one remove the same entity. */
  lemma SkippingTitleAgrees(es: seq<TextEntity>, k: nat)
    requires k < |es| && IsTitleBold(es[k])
    requires forall j :: 0 <= j < k ==> !IsBold(es[j])
    ensures RemoveTitleBold(es) == RemoveFirstBold(es)
  {
    SplitAround(es, k);
    assert !HasBold(es[..k]) by {
      forall j | 0 <= j < k
        ensures !IsBold(es[..k][j])
      {
        assert es[..k][j] == es[j];
      }
    }
    forall j | 0 <= j < k
      ensures !IsTitleBold(es[..k][j])
    {
      assert es[..k][j] == es[j];
    }
    RemoveFirstWhereSplit(IsTitleBold, es[..k], es[k], es[k + 1..]);
    RemoveFirstBoldSplit(es[..k], es[k], es[k + 1..]);
  }
}
