/**
  The documentation renderer: `_buildListenerDocs_md`, `_buildListenerDocs_html`
  and the format choice of `buildListenerDocs`. Each format is specified by
  functions that give the document piece by piece, and built by a method
  with the source's nested loops, proved equal to that specification.

  Both builders grow a string with `+=` in a loop, once over the parameters
  of an event and once over the events; both loops are described by one
  function, `Joined`, applied to a function from position to piece.
 */
module Render {
  import opened Decimal
  import opened DocStore

  predicate EndsWith(s: string, suffix: string) {
    |suffix| <= |s| && s[|s| - |suffix|..] == suffix
  }

  /** The parts 0 .. k-1 joined in order, as a loop of `+=` builds them. */
  function Joined(part: nat -> string, k: nat): string
    decreases k
  {
    if k == 0 then "" else Joined(part, k - 1) + part(k - 1)
  }

  /** Part i sits right after the parts before it, whatever is appended later. */
  lemma {:induction false} JoinedAt(part: nat -> string, i: nat, k: nat)
    requires i < k
    ensures |Joined(part, i + 1)| <= |Joined(part, k)|
    ensures Joined(part, k)[|Joined(part, i)|..|Joined(part, i + 1)|] == part(i)
    decreases k
  {
    if k > i + 1 {
      JoinedAt(part, i, k - 1);
      SliceExtend(Joined(part, i), part(i), Joined(part, k - 1), part(k - 1));
    } else {
      SliceOfSuffix(Joined(part, i), part(i));
    }
  }

  /** One more turn of the loop appends one more part. */
  lemma JoinedStep(part: nat -> string, k: nat)
    ensures Joined(part, k + 1) == Joined(part, k) + part(k)
  {
  }

  /** The joined text starts with the first part. */
  lemma {:induction false} JoinedFirst(part: nat -> string, k: nat, m: nat)
    requires 0 < k && m < |part(0)|
    ensures m < |Joined(part, k)| && Joined(part, k)[m] == part(0)[m]
    decreases k
  {
    if k > 1 {
      JoinedFirst(part, k - 1, m);
    } else {
      assert Joined(part, 1) == "" + part(0);
    }
  }

  /** The joined text ends with the last character of the last part, when that part is not empty. */
  lemma JoinedLast(part: nat -> string, k: nat)
    requires 0 < k && part(k - 1) != ""
    ensures Joined(part, k) != ""
    ensures Joined(part, k)[|Joined(part, k)| - 1] == part(k - 1)[|part(k - 1)| - 1]
  {
    assert Joined(part, k) == Joined(part, k - 1) + part(k - 1);
  }

  /** Appending to c keeps the slice of c that holds b. */
  lemma SliceExtend(a: string, b: string, c: string, d: string)
    requires |a + b| <= |c| && c[|a|..|a + b|] == b
    ensures |a + b| <= |c + d| && (c + d)[|a|..|a + b|] == b
  {
    assert (c + d)[|a|..|a + b|] == c[|a|..|a + b|];
  }

  /** An empty middle part changes nothing. */
  lemma AppendEmpty(a: string, b: string)
    ensures a + "" + b == a + b
  {
    assert a + "" == a;
  }

  /** The characters at the start of a concatenation are those of its first part. */
  lemma PrefixIndex(a: string, b: string, k: nat)
    requires k < |a|
    ensures (a + b)[k] == a[k]
  {
  }

  /** The first k characters of a concatenation are those of its first part when it is long enough. */
  lemma PrefixSlice(a: string, b: string, k: nat)
    requires k <= |a|
    ensures |a + b| >= k && (a + b)[..k] == a[..k]
  {
  }

  /** A string that starts with a non-empty prefix has the prefix's first character first. */
  lemma FirstOfPrefix(s: string, p: string)
    requires 0 < |p| <= |s| && s[..|p|] == p
    ensures s[0] == p[0]
  {
    assert s[..|p|][0] == s[0];
  }

  /** The characters after the first part of a concatenation are those of the second. */
  lemma ConcatIndex(a: string, b: string, k: nat)
    requires k < |b|
    ensures (a + b)[|a| + k] == b[k]
  {
  }

  /** The characters at the end of a concatenation are those at the end of its last part. */
  lemma SuffixIndex(a: string, b: string, k: nat)
    requires 0 < k <= |b|
    ensures (a + b)[|a + b| - k] == b[|b| - k]
  {
  }

  /** A string whose k-th last character differs from the suffix's does not end with it. */
  lemma NotEndsWith(x: string, suffix: string, k: nat)
    requires 0 < k <= |suffix| && k <= |x| && x[|x| - k] != suffix[|suffix| - k]
    ensures !EndsWith(x, suffix)
  {
    if |suffix| <= |x| {
      var tail := x[|x| - |suffix|..];
      assert tail[|tail| - k] == x[|x| - k];
    }
  }

  /** The last part of a concatenation is the slice after the first. */
  lemma SliceOfSuffix(a: string, b: string)
    ensures (a + b)[|a|..|a + b|] == b
  {
  }

  // ---------------------------------------------------------------------------
  // Markdown

  function MdTitle(className: string, count: nat): string {
    "# " + (className + " Listener Events Docs <" + NatToString(count) + " Events>\n")
  }

  const MdFooter: string := "\n---\n**Generated by @Listener**"

  const MdDivider: string := "\n---\n"

  const MdPlaceholder: string := "\n> **<无>**"

  /** The line of parameter j (0-based), numbered j + 1. */
  function MdParamLine(j: nat, param: string): string {
    "\n> **" + (NatToString(j + 1) + "**. " + param) + "<br>"
  }

  /** Line j for every parameter j. */
  function MdParamLines(params: seq<string>): nat -> string {
    (j: nat) => if j < |params| then MdParamLine(j, params[j]) else ""
  }

  /** The numbered lines, or the placeholder when there are no parameters. */
  function MdParams(params: seq<string>): string {
    if params == [] then MdPlaceholder else Joined(MdParamLines(params), |params|)
  }

  function MdBlock(event: string, doc: Doc): string {
    "\n## " + event + "\n" + doc.desc + "\n" + MdParams(doc.params) + "\n"
  }

  /** The i-th event's section: its block, then a divider unless it is the last. */
  function MdSection(s: Store, i: nat): string
    requires s.WellFormed() && i < |s.order|
  {
    var block := MdBlock(s.order[i], s.docs[s.order[i]]);
    if i != |s.order| - 1 then block + MdDivider else block
  }

  /** Section i for every event i. */
  function MdSections(s: Store): nat -> string
    requires s.WellFormed()
  {
    (i: nat) => if i < |s.order| then MdSection(s, i) else ""
  }

  /** A block followed by the divider unless it is the last is the section function's value there. */
  lemma MdSectionsAt(s: Store, i: nat, section: string)
    requires s.WellFormed() && i < |s.order|
    requires section == if i != |s.order| - 1 then MdBlock(s.order[i], s.docs[s.order[i]]) + MdDivider
                         else MdBlock(s.order[i], s.docs[s.order[i]])
    ensures MdSections(s)(i) == section
  {
  }

  /** `_buildListenerDocs_md`'s result: it opens with the `# ` of its title. */
  function MarkdownDoc(className: string, s: Store): (md: string)
    requires s.WellFormed()
    ensures |md| >= 2 && md[..2] == "# "
  {
    var title := MdTitle(className, s.Count());
    var body := Joined(MdSections(s), s.Count());
    PrefixSlice("# ", className + " Listener Events Docs <" + NatToString(s.Count()) + " Events>\n", 2);
    PrefixSlice(title, body, 2);
    PrefixSlice(title + body, MdFooter, 2);
    title + body + MdFooter
  }

  // ---------------------------------------------------------------------------
  // HTML

  /**
    The `<style>` element of the page head. The rules between the tags are
    fixed text that does not depend on the documented events and are not
    reproduced here.
   */
  const HtmlStyle: string := "    <style>\n    </style>"

  function HtmlHead(className: string, count: nat): string {
    "<!-- " + HtmlHeadRest(className, NatToString(count))
  }

  /** The page head opens a comment. */
  lemma HtmlHeadOpens(className: string, count: nat)
    ensures |HtmlHead(className, count)| >= 4 && HtmlHead(className, count)[..4] == "<!--"
  {
    PrefixSlice("<!-- ", HtmlHeadRest(className, NatToString(count)), 4);
  }

  /** The page head after its opening `<!-- `, with the event count written as `countText`. */
  function HtmlHeadRest(className: string, countText: string): string {
    className + " Listener Events Docs -->\n"
      + "<!-- Use @Listener auto generated -->\n"
      + "<!DOCTYPE html>\n<html>\n<head>\n    <meta charset=\"UTF-8\">\n"
      + "    <title>" + className + " Listener Events Docs</title>\n"
      + HtmlStyle + "\n</head>\n<body>\n    <h1 class=\"title\">\n"
      + "        " + className + " Listener Events Docs\n"
      + "        <span class=\"event-count\">" + countText + " Events</span>\n"
      + "    </h1>\n    <div class=\"container\">\n"
  }

  const HtmlFooter: string :=
    "\n        <!-- No divider-->\n    </div>\n    <!-- Footer -->\n    <div class=\"footer\">\n"
    + "        Generated by @Listener\n    </div>\n</body>\n</html>"

  /** Written in two pieces so that its eighth-last character, '>', is the first of the second. */
  const HtmlDivider: string := "\n        <!-- Divider -->\n        <div class=\"divider\"" + "></div>\n"

  /** The start of the comment that opens each parameter entry. */
  const HtmlParamOpen: string := "\n            <!-- "

  const HtmlPlaceholder: string :=
    HtmlParamOpen + "NULL -->" + "\n            <div class=\"param\">\n                <span><无></span>\n            </div>\n"

  function HtmlParamLine(j: nat, param: string): string {
    HtmlParamOpen + NatToString(j + 1) + HtmlParamRest(j, param)
  }

  /** The entry of parameter j after its number. */
  function HtmlParamRest(j: nat, param: string): string {
    ". " + param + " -->\n            <div class=\"param\">\n"
      + "                <span>" + NatToString(j + 1) + ".</span>\n"
      + "                <span class=\"param-desc\">" + param + "</span>\n            </div>\n"
  }

  /** Entry j for every parameter j. */
  function HtmlParamLines(params: seq<string>): nat -> string {
    (j: nat) => if j < |params| then HtmlParamLine(j, params[j]) else ""
  }

  function HtmlParams(params: seq<string>): string {
    if params == [] then HtmlPlaceholder else Joined(HtmlParamLines(params), |params|)
  }

  /** Written in two pieces so that its eighth-last character, a space, is the first of the second. */
  const HtmlBlockTail: string := "\n            </div>\n       " + " </div>\n"

  /** The block of one event around its already rendered parameter text. */
  function HtmlEventBlock(event: string, desc: string, paramText: string): string {
    HtmlEventOpen(event, desc) + paramText + HtmlBlockTail
  }

  /** The block of one event up to its parameter text. */
  function HtmlEventOpen(event: string, desc: string): string {
    "\n        <!-- " + event + " -->\n        <div class=\"event\">\n"
      + "            <h2 class=\"event-name\">" + event + "</h2>\n"
      + "            <div class=\"event-desc\">" + desc + "</div>\n            \n"
      + "            <div class=\"params-box\">\n"
      + "                <div class=\"params-title\">调用函数时传参：</div>\n"
  }

  function HtmlBlock(event: string, doc: Doc): string {
    HtmlEventBlock(event, doc.desc, HtmlParams(doc.params))
  }

  function HtmlSection(s: Store, i: nat): string
    requires s.WellFormed() && i < |s.order|
  {
    var block := HtmlBlock(s.order[i], s.docs[s.order[i]]);
    if i != |s.order| - 1 then block + HtmlDivider else block
  }

  /** Section i for every event i. */
  function HtmlSections(s: Store): nat -> string
    requires s.WellFormed()
  {
    (i: nat) => if i < |s.order| then HtmlSection(s, i) else ""
  }

  /** A block followed by the divider unless it is the last is the section function's value there. */
  lemma HtmlSectionsAt(s: Store, i: nat, section: string)
    requires s.WellFormed() && i < |s.order|
    requires section == if i != |s.order| - 1 then HtmlBlock(s.order[i], s.docs[s.order[i]]) + HtmlDivider
                         else HtmlBlock(s.order[i], s.docs[s.order[i]])
    ensures HtmlSections(s)(i) == section
  {
  }

  /** `_buildListenerDocs_html`'s result: it opens with the `<!--` of its first comment. */
  function HtmlDoc(className: string, s: Store): (html: string)
    requires s.WellFormed()
    ensures |html| >= 4 && html[..4] == "<!--"
  {
    var head := HtmlHead(className, s.Count());
    var body := Joined(HtmlSections(s), s.Count());
    HtmlHeadOpens(className, s.Count());
    PrefixSlice(head, body, 4);
    PrefixSlice(head + body, HtmlFooter, 4);
    head + body + HtmlFooter
  }

  // ---------------------------------------------------------------------------
  // Format choice

  /** `model in ["markdown", "md"]`. */
  predicate IsMarkdownModel(model: string) {
    model == "markdown" || model == "md"
  }

  /** `buildListenerDocs(model)`: it starts with '#' exactly when Markdown was asked for, and with '<' otherwise. */
  function ListenerDocs(className: string, s: Store, model: string): (doc: string)
    requires s.WellFormed()
    ensures |doc| > 0
    ensures doc[0] == '#' <==> IsMarkdownModel(model)
    ensures doc[0] == '<' <==> !IsMarkdownModel(model)
  {
    if IsMarkdownModel(model) then
      var md := MarkdownDoc(className, s);
      FirstOfPrefix(md, "# ");
      assert md[0] == '#';
      md
    else
      var html := HtmlDoc(className, s);
      FirstOfPrefix(html, "<!--");
      assert html[0] == '<';
      html
  }

  // ---------------------------------------------------------------------------
  // Properties of the Markdown document

  /** A parameter line has its number at index 5 and ends with `<br>`. */
  lemma MdParamLineShape(j: nat, param: string)
    ensures |MdParamLine(j, param)| > 5 && IsDigit(MdParamLine(j, param)[5])
    ensures EndsWith(MdParamLine(j, param), "<br>")
    ensures MdParamLine(j, param)[|MdParamLine(j, param)| - 1] == '>'
  {
    var open := "\n> **";
    var middle := NatToString(j + 1) + "**. " + param;
    assert MdParamLine(j, param) == open + middle + "<br>";
    PrefixIndex(open + middle, "<br>", 5);
    PrefixIndex(NatToString(j + 1), "**. ", 0);
    PrefixIndex(NatToString(j + 1) + "**. ", param, 0);
    SuffixIndex(open + middle, "<br>", 1);
    ConcatIndex(open, middle, 0);
  }

  /** The Markdown placeholder appears exactly when the event has no parameters. */
  lemma MdPlaceholderIff(params: seq<string>)
    ensures MdParams(params) == MdPlaceholder <==> params == []
  {
    if params != [] {
      var f := MdParamLines(params);
      MdParamLineShape(0, params[0]);
      assert f(0) == MdParamLine(0, params[0]);
      JoinedFirst(f, |params|, 5);
      assert MdPlaceholder[5] == '<';
    }
  }

  /** Parameter j's line, numbered j + 1, follows the lines of parameters 0 .. j-1. */
  lemma MdParamLineAt(params: seq<string>, j: nat)
    requires j < |params|
    ensures |Joined(MdParamLines(params), j + 1)| <= |MdParams(params)|
    ensures MdParams(params)[|Joined(MdParamLines(params), j)|..|Joined(MdParamLines(params), j + 1)|]
            == MdParamLine(j, params[j])
  {
    var f := MdParamLines(params);
    JoinedAt(f, j, |params|);
    assert f(j) == MdParamLine(j, params[j]);
  }

  /** The parameter text ends with '>' (a numbered line) or '*' (the placeholder). */
  lemma MdParamsLast(params: seq<string>)
    ensures MdParams(params) != []
    ensures MdParams(params)[|MdParams(params)| - 1] in {'>', '*'}
  {
    if params != [] {
      var f := MdParamLines(params);
      var n := |params|;
      MdParamLineShape(n - 1, params[n - 1]);
      assert f(n - 1) == MdParamLine(n - 1, params[n - 1]);
      JoinedLast(f, n);
    }
  }

  /** A Markdown section ends with the divider exactly when its event is not the last. */
  lemma MdSectionDivider(s: Store, i: nat)
    requires s.WellFormed() && i < |s.order|
    ensures EndsWith(MdSection(s, i), MdDivider) <==> i != |s.order| - 1
  {
    var doc := s.docs[s.order[i]];
    var params := MdParams(doc.params);
    var block := MdBlock(s.order[i], doc);
    if i == |s.order| - 1 {
      MdParamsLast(doc.params);
      assert block == ("\n## " + s.order[i] + "\n" + doc.desc + "\n") + params + "\n";
      assert block[|block| - 2] == params[|params| - 1];
      assert MdDivider[|MdDivider| - 2] == '-';
    }
  }

  /** Section i of the document body sits right after the sections of events 0 .. i-1: insertion order. */
  lemma MdSectionAt(s: Store, i: nat, k: nat)
    requires s.WellFormed() && i < k <= |s.order|
    ensures |Joined(MdSections(s), i + 1)| <= |Joined(MdSections(s), k)|
    ensures Joined(MdSections(s), k)[|Joined(MdSections(s), i)|..|Joined(MdSections(s), i + 1)|]
            == MdSection(s, i)
  {
    var f := MdSections(s);
    JoinedAt(f, i, k);
    assert f(i) == MdSection(s, i);
  }

  // ---------------------------------------------------------------------------
  // Properties of the HTML document

  /** A parameter entry has its number at index 18, right after the opening of its comment. */
  lemma HtmlParamLineShape(j: nat, param: string)
    ensures |HtmlParamLine(j, param)| > 18 && IsDigit(HtmlParamLine(j, param)[18])
  {
    var number := NatToString(j + 1);
    assert |HtmlParamOpen| == 18;
    ConcatIndex(HtmlParamOpen, number, 0);
    PrefixIndex(HtmlParamOpen + number, HtmlParamRest(j, param), 18);
  }

  /** The HTML placeholder appears exactly when the event has no parameters. */
  lemma HtmlPlaceholderIff(params: seq<string>)
    ensures HtmlParams(params) == HtmlPlaceholder <==> params == []
  {
    if params != [] {
      var f := HtmlParamLines(params);
      HtmlParamLineShape(0, params[0]);
      assert f(0) == HtmlParamLine(0, params[0]);
      JoinedFirst(f, |params|, 18);
      var opening := HtmlParamOpen + "NULL -->";
      assert opening[18] == 'N';
    }
  }

  /** The entry function's value at a parameter's position is that parameter's entry. */
  lemma HtmlParamLinesAt(params: seq<string>, j: nat)
    requires j < |params|
    ensures HtmlParamLines(params)(j) == HtmlParamLine(j, params[j])
  {
  }

  /** Parameter j's entry, numbered j + 1, follows the entries of parameters 0 .. j-1. */
  lemma HtmlParamLineAt(params: seq<string>, j: nat)
    requires j < |params|
    ensures |Joined(HtmlParamLines(params), j + 1)| <= |HtmlParams(params)|
    ensures HtmlParams(params)[|Joined(HtmlParamLines(params), j)|..|Joined(HtmlParamLines(params), j + 1)|]
            == HtmlParamLine(j, params[j])
  {
    var f := HtmlParamLines(params);
    JoinedAt(f, j, |params|);
    assert f(j) == HtmlParamLine(j, params[j]);
  }

  /** With at least one parameter the entries are not empty. */
  lemma HtmlParamsNonEmpty(params: seq<string>)
    requires params != []
    ensures Joined(HtmlParamLines(params), |params|) != ""
  {
    var last := |params| - 1;
    HtmlParamLinesAt(params, last);
    assert |HtmlParamLine(last, params[last])| >= |HtmlParamOpen|;
    JoinedStep(HtmlParamLines(params), last);
  }

  /** An HTML section ends with the divider exactly when its event is not the last. */
  lemma HtmlSectionDivider(s: Store, i: nat)
    requires s.WellFormed() && i < |s.order|
    ensures EndsWith(HtmlSection(s, i), HtmlDivider) <==> i != |s.order| - 1
  {
    var doc := s.docs[s.order[i]];
    var block := HtmlBlock(s.order[i], doc);
    var dividerHead := "\n        <!-- Divider -->\n        <div class=\"divider\"";
    var tailHead := "\n            </div>\n       ";
    SuffixIndex(dividerHead, "></div>\n", 8);
    if i == |s.order| - 1 {
      var before := HtmlEventOpen(s.order[i], doc.desc) + HtmlParams(doc.params);
      SuffixIndex(before, HtmlBlockTail, 8);
      SuffixIndex(tailHead, " </div>\n", 8);
      NotEndsWith(block, HtmlDivider, 8);
    } else {
      SliceOfSuffix(block, HtmlDivider);
    }
  }

  /** Section i of the HTML container sits right after the sections of events 0 .. i-1. */
  lemma HtmlSectionAt(s: Store, i: nat, k: nat)
    requires s.WellFormed() && i < k <= |s.order|
    ensures |Joined(HtmlSections(s), i + 1)| <= |Joined(HtmlSections(s), k)|
    ensures Joined(HtmlSections(s), k)[|Joined(HtmlSections(s), i)|..|Joined(HtmlSections(s), i + 1)|]
            == HtmlSection(s, i)
  {
    var f := HtmlSections(s);
    JoinedAt(f, i, k);
    assert f(i) == HtmlSection(s, i);
  }

  // ---------------------------------------------------------------------------
  // Properties of both documents

  /** Both titles report the number of distinct documented events. */
  lemma TitleCountsEvents(className: string, s: Store)
    requires s.WellFormed()
    ensures MarkdownDoc(className, s) == MdTitle(className, |s.docs|) + Joined(MdSections(s), |s.order|) + MdFooter
    ensures HtmlDoc(className, s) == HtmlHead(className, |s.docs|) + Joined(HtmlSections(s), |s.order|) + HtmlFooter
  {
    CountIsDistinctEvents(s);
  }

  /** With nothing documented the Markdown document is its title, reporting 0 events, and footer. */
  lemma MdNoEvents(className: string)
    ensures MarkdownDoc(className, Empty) == MdTitle(className, 0) + MdFooter
    ensures MdTitle(className, 0) == "# " + (className + " Listener Events Docs <" + "0" + " Events>\n")
  {
    assert Joined(MdSections(Empty), 0) == "";
    AppendEmpty(MdTitle(className, 0), MdFooter);
    assert NatToString(0) == "0";
  }

  /** With nothing documented the HTML document is its head, reporting "0" events, and footer. */
  lemma HtmlNoEvents(className: string)
    ensures HtmlDoc(className, Empty) == "<!-- " + HtmlHeadRest(className, "0") + HtmlFooter
  {
    assert Joined(HtmlSections(Empty), 0) == "";
    AppendEmpty(HtmlHead(className, 0), HtmlFooter);
    assert NatToString(0) == "0";
  }

  // ---------------------------------------------------------------------------
  // Builders

  /** The parameter text of one event in `_buildListenerDocs_md`: numbered lines, or the placeholder. */
  method BuildMdParams(params: seq<string>) returns (paramMd: string)
    ensures paramMd == MdParams(params)
  {
    ghost var f := MdParamLines(params);
    paramMd := "";
    for j := 0 to |params|
      invariant paramMd == Joined(f, j)
    {
      var line := "\n> **" + (NatToString(j + 1) + "**. " + params[j]) + "<br>";
      assert line == f(j);
      paramMd := paramMd + line;
    }
    if params != [] {
      MdParamsLast(params);
    }
    if paramMd == "" {
      paramMd := MdPlaceholder;
    }
  }

  /** `_buildListenerDocs_md`: one block per event, a divider after all but the last, then title and footer. */
  method BuildMarkdown(className: string, s: Store) returns (md: string)
    requires s.WellFormed()
    ensures md == MarkdownDoc(className, s)
  {
    ghost var f := MdSections(s);
    var container := "";
    var n := |s.order|;
    for i := 0 to n
      invariant container == Joined(f, i)
    {
      var v := s.order[i];
      var paramMd := BuildMdParams(s.docs[v].params);
      var block := "\n## " + v + "\n" + s.docs[v].desc + "\n" + paramMd + "\n";
      assert block == MdBlock(v, s.docs[v]);
      if i != n - 1 {
        block := block + MdDivider;
      }
      MdSectionsAt(s, i, block);
      JoinedStep(f, i);
      container := container + block;
    }
    md := "# " + (className + " Listener Events Docs <" + NatToString(n) + " Events>\n") + container + MdFooter;
  }

  /** The parameter text of one event in `_buildListenerDocs_html`. */
  method BuildHtmlParams(params: seq<string>) returns (paramHtml: string)
    ensures paramHtml == HtmlParams(params)
  {
    ghost var f := HtmlParamLines(params);
    paramHtml := "";
    for j := 0 to |params|
      invariant paramHtml == Joined(f, j)
    {
      var line := HtmlParamLine(j, params[j]);
      HtmlParamLinesAt(params, j);
      JoinedStep(f, j);
      paramHtml := paramHtml + line;
    }
    if params != [] {
      HtmlParamsNonEmpty(params);
    }
    if paramHtml == "" {
      paramHtml := HtmlPlaceholder;
    }
  }

  /** `_buildListenerDocs_html`: the same loop over the HTML fragments. */
  method BuildHtml(className: string, s: Store) returns (html: string)
    requires s.WellFormed()
    ensures html == HtmlDoc(className, s)
  {
    ghost var f := HtmlSections(s);
    var container := "";
    var n := |s.order|;
    for i := 0 to n
      invariant container == Joined(f, i)
    {
      var v := s.order[i];
      var paramHtml := BuildHtmlParams(s.docs[v].params);
      var block := HtmlEventBlock(v, s.docs[v].desc, paramHtml);
      assert block == HtmlBlock(v, s.docs[v]);
      if i != n - 1 {
        block := block + HtmlDivider;
      }
      HtmlSectionsAt(s, i, block);
      JoinedStep(f, i);
      container := container + block;
    }
    html := HtmlHead(className, n) + container + HtmlFooter;
  }

  /** `buildListenerDocs(model)`: Markdown for "markdown" or "md", HTML for any other value. */
  method BuildListenerDocs(className: string, s: Store, model: string) returns (doc: string)
    requires s.WellFormed()
    ensures IsMarkdownModel(model) ==> doc == MarkdownDoc(className, s)
    ensures !IsMarkdownModel(model) ==> doc == HtmlDoc(className, s)
  {
    if model == "markdown" || model == "md" {
      doc := BuildMarkdown(className, s);
    } else {
      doc := BuildHtml(className, s);
    }
  }
}
