/** The HTML bootstrap injector: `rigHtmlDocumentToInitializeElectronCompile`
    rewrites a compiled HTML document line by line so that it loads the
    bootstrap script (the magic file name) before anything else. */
module HtmlRig {
  import opened Strings

  /** The bootstrap marker: a script name no real file carries. */
  const MagicWords := "__magic__file__to__help__electron__compile.js"

  const HeadTag := "<head>"
  const HtmlOpen := "<html"
  const ScriptTag := "<script src=\"" + MagicWords + "\"></script>"

  /** What the first `<head>` (in any case) is replaced with. */
  const HeadReplacement := HeadTag + ScriptTag

  /** What follows the captured attributes when `<html ATTRS>` is replaced. */
  const HtmlReplacementTail := "><head>" + ScriptTag + "</head>"

  lemma ReplacementsHaveNoNewline()
    ensures '\n' !in HeadReplacement && '\n' !in HtmlOpen && '\n' !in HtmlReplacementTail
  {
    assert '\n' !in MagicWords;
    assert '\n' !in "<script src=\"" && '\n' !in "\"></script>";
    assert ScriptTag == "<script src=\"" + MagicWords + "\"></script>";
    assert '\n' !in ScriptTag;
    assert '\n' !in "><head>" && '\n' !in "</head>" && '\n' !in HeadTag;
  }

  /** `line.replace(/<head>/i, replacement)`: the first `<head>` in any case
      becomes the lower-case tag followed by the bootstrap script. */
  function ReplaceFirstHead(line: string): string
  {
    match FindFrom(line, HeadTag, 0)
    case None => line
    case Some(p) => line[..p] + HeadReplacement + line[p + |HeadTag|..]
  }

  /** The `<head>` replacement never brings a newline into a line. */
  lemma ReplaceFirstHeadNoNewline(line: string)
    requires '\n' !in line
    ensures '\n' !in ReplaceFirstHead(line)
  {
    ReplacementsHaveNoNewline();
  }

  /** Length of the run of characters other than `>` that starts at `j`:
      what the greedy `[^>]+` consumes. */
  function NonGtRun(line: string, j: nat): (n: nat)
    requires j <= |line|
    ensures j + n <= |line|
    ensures forall k :: j <= k < j + n ==> line[k] != '>'
    ensures j + n == |line| || line[j + n] == '>'
    decreases |line| - j
  {
    if j == |line| || line[j] == '>' then 0 else 1 + NonGtRun(line, j + 1)
  }

  /** The regular expression `/<html([^>]+)>/i` matches at `p` with `attrs`
      as its captured group. */
  predicate HtmlTagWithAttrsAt(line: string, p: int, attrs: string)
  {
    MatchesAt(line, p, HtmlOpen) && |attrs| >= 1 && '>' !in attrs &&
    p + |HtmlOpen| + |attrs| < |line| &&
    line[p + |HtmlOpen|..p + |HtmlOpen| + |attrs|] == attrs &&
    line[p + |HtmlOpen| + |attrs|] == '>'
  }

  /** The same match, decided by scanning: a non-empty run of non-`>`
      characters after `<html` that is closed by a `>`. */
  predicate HtmlTagAt(line: string, p: nat)
  {
    MatchesAt(line, p, HtmlOpen) &&
    var n := NonGtRun(line, p + |HtmlOpen|);
    n >= 1 && p + |HtmlOpen| + n < |line|
  }

  /** The scan agrees with the regular expression, and the captured group
      is exactly the run of non-`>` characters. */
  lemma HtmlTagAtIff(line: string, p: nat, attrs: string)
    ensures HtmlTagWithAttrsAt(line, p, attrs) ==>
              HtmlTagAt(line, p) &&
              attrs == line[p + |HtmlOpen|..p + |HtmlOpen| + NonGtRun(line, p + |HtmlOpen|)]
    ensures HtmlTagAt(line, p) ==>
              HtmlTagWithAttrsAt(line, p, line[p + |HtmlOpen|..p + |HtmlOpen| + NonGtRun(line, p + |HtmlOpen|)])
  {
    var j := p + |HtmlOpen|;
    if HtmlTagWithAttrsAt(line, p, attrs) {
      var n := NonGtRun(line, j);
      assert |attrs| == n;
    }
    if HtmlTagAt(line, p) {
      var n := NonGtRun(line, j);
      var a := line[j..j + n];
      forall k | 0 <= k < |a| ensures a[k] != '>' { assert a[k] == line[j + k]; }
    }
  }

  /** The leftmost position at or after `from` where `/<html([^>]+)>/i` matches. */
  function FindHtmlTag(line: string, from: nat): (r: Option<nat>)
    ensures r.Some? ==> from <= r.value && HtmlTagAt(line, r.value)
    ensures forall q: nat :: from <= q && (r.None? || q < r.value) ==> !HtmlTagAt(line, q)
    decreases |line| - from
  {
    if from + |HtmlOpen| > |line| then None
    else if HtmlTagAt(line, from) then Some(from)
    else FindHtmlTag(line, from + 1)
  }

  /** The replacement template `<html$1><head><script …></script></head>`
      with the captured attributes in place of `$1`. */
  function HtmlReplacement(attrs: string): string
  {
    HtmlOpen + attrs + HtmlReplacementTail
  }

  /** The match at `p` replaced by the template, its attributes kept. */
  function ReplaceHtmlAt(line: string, p: nat): string
    requires HtmlTagAt(line, p)
  {
    var n := NonGtRun(line, p + |HtmlOpen|);
    line[..p] + HtmlReplacement(line[p + |HtmlOpen|..p + |HtmlOpen| + n]) + line[p + |HtmlOpen| + n + 1..]
  }

  /** `line.replace(/<html([^>]+)>/i, "<html$1><head><script …></script></head>")`. */
  function ReplaceFirstHtml(line: string): string
  {
    match FindHtmlTag(line, 0)
    case None => line
    case Some(p) => ReplaceHtmlAt(line, p)
  }

  /** The `<html ATTRS>` replacement never brings a newline into a line. */
  lemma ReplaceFirstHtmlNoNewline(line: string)
    requires '\n' !in line
    ensures '\n' !in ReplaceFirstHtml(line)
  {
    ReplacementsHaveNoNewline();
  }

  /** Index of the first line at or after `from` that contains `pat`
      case-insensitively. */
  function FirstLineWith(lines: seq<string>, pat: string, from: nat): (r: Option<nat>)
    ensures r.Some? ==> from <= r.value < |lines| && Contains(lines[r.value], pat)
    ensures forall j :: from <= j < |lines| && (r.None? || j < r.value) ==> !Contains(lines[j], pat)
    decreases |lines| - from
  {
    if from >= |lines| then None
    else if Contains(lines[from], pat) then Some(from)
    else FirstLineWith(lines, pat, from + 1)
  }

  lemma FirstLineWithIs(lines: seq<string>, pat: string, k: nat)
    requires k < |lines| && Contains(lines[k], pat)
    requires forall j :: 0 <= j < k ==> !Contains(lines[j], pat)
    ensures FirstLineWith(lines, pat, 0) == Some(k)
  {
  }

  lemma FirstLineWithNone(lines: seq<string>, pat: string)
    requires forall j :: 0 <= j < |lines| ==> !Contains(lines[j], pat)
    ensures FirstLineWith(lines, pat, 0) == None
  {
  }

  /** Replacing one line of a newline-free split by a newline-free line keeps
      the split structure: the text splits back into exactly those lines. */
  lemma SplitOfReplacedLine(lines: seq<string>, k: nat, line: string)
    requires k < |lines| && '\n' !in line
    requires forall j :: 0 <= j < |lines| ==> '\n' !in lines[j]
    ensures Split(Join(lines[k := line])) == lines[k := line]
  {
    SplitOfJoin(lines[k := line]);
  }

  /** The document the rewriter produces: the first line holding `<head>`
      gets the script after its first `<head>`; failing that, the first line
      holding `<html` gets a synthetic head after its first `<html ATTRS>`. */
  function InjectBootstrap(doc: string): string
  {
    var lines := Split(doc);
    match FirstLineWith(lines, HeadTag, 0)
    case Some(k) => Join(lines[k := ReplaceFirstHead(lines[k])])
    case None =>
      match FirstLineWith(lines, HtmlOpen, 0)
      case Some(k) => Join(lines[k := ReplaceFirstHtml(lines[k])])
      case None => Join(lines)
  }

  /** `rigHtmlDocumentToInitializeElectronCompile`: splits the document into
      an array of lines, rewrites at most one of them in place, and joins. */
  method RigHtmlDocument(doc: string) returns (result: string)
    ensures result == InjectBootstrap(doc)
  {
    var parts := Split(doc);
    var lines := new string[|parts|](i requires 0 <= i < |parts| => parts[i]);
    var replacedHead := false;

    var i := 0;
    while i < lines.Length
      invariant 0 <= i <= lines.Length
      invariant !replacedHead
      invariant lines[..] == parts
      invariant forall j :: 0 <= j < i ==> !Contains(parts[j], HeadTag)
    {
      if !Contains(lines[i], HeadTag) {
        i := i + 1;
        continue;
      }
      lines[i] := ReplaceFirstHead(lines[i]);
      replacedHead := true;
      FirstLineWithIs(parts, HeadTag, i);
      assert lines[..] == parts[i := ReplaceFirstHead(parts[i])];
      break;
    }

    if !replacedHead {
      FirstLineWithNone(parts, HeadTag);
      ghost var replacedHtml := false;
      i := 0;
      while i < lines.Length
        invariant 0 <= i <= lines.Length
        invariant !replacedHtml
        invariant lines[..] == parts
        invariant forall j :: 0 <= j < i ==> !Contains(parts[j], HtmlOpen)
      {
        if !Contains(lines[i], HtmlOpen) {
          i := i + 1;
          continue;
        }
        lines[i] := ReplaceFirstHtml(lines[i]);
        FirstLineWithIs(parts, HtmlOpen, i);
        assert lines[..] == parts[i := ReplaceFirstHtml(parts[i])];
        replacedHtml := true;
        break;
      }
      if !replacedHtml {
        FirstLineWithNone(parts, HtmlOpen);
      }
    }

    result := Join(lines[..]);
  }

  /** The output has exactly as many newline-separated lines as the input,
      because neither replacement contains a newline. */
  lemma InjectPreservesLineCount(doc: string)
    ensures |Split(InjectBootstrap(doc))| == |Split(doc)|
  {
    var lines := Split(doc);
    match FirstLineWith(lines, HeadTag, 0) {
      case Some(k) =>
        ReplaceFirstHeadNoNewline(lines[k]);
        SplitOfReplacedLine(lines, k, ReplaceFirstHead(lines[k]));
      case None =>
        match FirstLineWith(lines, HtmlOpen, 0) {
          case Some(k) =>
            ReplaceFirstHtmlNoNewline(lines[k]);
            SplitOfReplacedLine(lines, k, ReplaceFirstHtml(lines[k]));
          case None =>
            SplitOfJoin(lines);
        }
    }
  }

  /** The first line that matches `pat` anywhere, stated by positions. */
  lemma FirstLineByPositions(lines: seq<string>, pat: string, k: nat, p: int)
    requires k < |lines| && MatchesAt(lines[k], p, pat)
    requires forall j, q :: 0 <= j < k ==> !MatchesAt(lines[j], q, pat)
    ensures FirstLineWith(lines, pat, 0) == Some(k)
  {
    forall j | 0 <= j < k ensures !Contains(lines[j], pat) { ContainsIff(lines[j], pat); }
    ContainsIff(lines[k], pat);
    FirstLineWithIs(lines, pat, k);
  }

  lemma NoLineByPositions(lines: seq<string>, pat: string)
    requires forall j, q :: 0 <= j < |lines| ==> !MatchesAt(lines[j], q, pat)
    ensures FirstLineWith(lines, pat, 0) == None
  {
    forall j | 0 <= j < |lines| ensures !Contains(lines[j], pat) { ContainsIff(lines[j], pat); }
    FirstLineWithNone(lines, pat);
  }

  /** On one line: the first `<head>` in any case is the one replaced. */
  lemma ReplaceFirstHeadAt(line: string, p: nat)
    requires MatchesAt(line, p, HeadTag)
    requires forall q :: 0 <= q < p ==> !MatchesAt(line, q, HeadTag)
    ensures ReplaceFirstHead(line) == line[..p] + HeadReplacement + line[p + |HeadTag|..]
  {
    assert FindFrom(line, HeadTag, 0) == Some(p);
  }

  /** On one line: the leftmost match of `/<html([^>]+)>/i` is replaced, and
      its captured attributes are kept verbatim. */
  lemma ReplaceFirstHtmlAt(line: string, p: nat, attrs: string)
    requires HtmlTagWithAttrsAt(line, p, attrs)
    requires forall q, a :: 0 <= q < p ==> !HtmlTagWithAttrsAt(line, q, a)
    ensures ReplaceFirstHtml(line)
            == line[..p] + HtmlReplacement(attrs) + line[p + |HtmlOpen| + |attrs| + 1..]
  {
    HtmlTagAtIff(line, p, attrs);
    NoEarlierHtmlTag(line, p);
    FindHtmlTagIs(line, p);
    ReplaceHtmlAtIs(line, p, attrs);
  }

  lemma ReplaceHtmlAtIs(line: string, p: nat, attrs: string)
    requires HtmlTagWithAttrsAt(line, p, attrs)
    requires HtmlTagAt(line, p)
    ensures ReplaceHtmlAt(line, p)
            == line[..p] + HtmlReplacement(attrs) + line[p + |HtmlOpen| + |attrs| + 1..]
  {
    HtmlTagAtIff(line, p, attrs);
  }

  lemma NoEarlierHtmlTag(line: string, p: nat)
    requires forall q, a :: 0 <= q < p ==> !HtmlTagWithAttrsAt(line, q, a)
    ensures forall q: nat :: q < p ==> !HtmlTagAt(line, q)
  {
    forall q: nat | q < p ensures !HtmlTagAt(line, q) {
      HtmlTagAtIff(line, q, "");
    }
  }

  lemma FindHtmlTagIs(line: string, p: nat)
    requires HtmlTagAt(line, p)
    requires forall q: nat :: q < p ==> !HtmlTagAt(line, q)
    ensures FindHtmlTag(line, 0) == Some(p)
  {
  }

  /** A line without any `/<html([^>]+)>/i` match is left as it is. */
  lemma ReplaceFirstHtmlNoMatch(line: string)
    requires forall q, a :: !HtmlTagWithAttrsAt(line, q, a)
    ensures ReplaceFirstHtml(line) == line
  {
    forall q: nat ensures !HtmlTagAt(line, q) {
      HtmlTagAtIff(line, q, "");
    }
    assert FindHtmlTag(line, 0).None?;
  }

  /** A line containing `<head>` exists: only the first such line changes,
      and its first `<head>` (in any case) becomes `<head>` plus the script. */
  lemma InjectHeadCase(doc: string, k: nat, p: nat)
    requires k < |Split(doc)|
    requires forall j, q :: 0 <= j < k ==> !MatchesAt(Split(doc)[j], q, HeadTag)
    requires MatchesAt(Split(doc)[k], p, HeadTag)
    requires forall q :: 0 <= q < p ==> !MatchesAt(Split(doc)[k], q, HeadTag)
    ensures |Split(InjectBootstrap(doc))| == |Split(doc)|
    ensures Split(InjectBootstrap(doc))[k]
            == Split(doc)[k][..p] + HeadReplacement + Split(doc)[k][p + |HeadTag|..]
    ensures forall j :: 0 <= j < |Split(doc)| && j != k ==>
              Split(InjectBootstrap(doc))[j] == Split(doc)[j]
  {
    var lines := Split(doc);
    FirstLineByPositions(lines, HeadTag, k, p);
    ReplaceFirstHeadAt(lines[k], p);
    ReplaceFirstHeadNoNewline(lines[k]);
    SplitOfReplacedLine(lines, k, ReplaceFirstHead(lines[k]));
  }

  /** No line contains `<head>`: only the first line containing `<html` may
      change, and its first `<html ATTRS>` becomes `<html` + ATTRS verbatim
      + `><head><script …></script></head>`. */
  lemma InjectHtmlCase(doc: string, k: nat, p: nat, attrs: string)
    requires forall j, q :: 0 <= j < |Split(doc)| ==> !MatchesAt(Split(doc)[j], q, HeadTag)
    requires k < |Split(doc)|
    requires forall j, q :: 0 <= j < k ==> !MatchesAt(Split(doc)[j], q, HtmlOpen)
    requires HtmlTagWithAttrsAt(Split(doc)[k], p, attrs)
    requires forall q, a :: 0 <= q < p ==> !HtmlTagWithAttrsAt(Split(doc)[k], q, a)
    ensures |Split(InjectBootstrap(doc))| == |Split(doc)|
    ensures Split(InjectBootstrap(doc))[k]
            == Split(doc)[k][..p] + HtmlReplacement(attrs) + Split(doc)[k][p + |HtmlOpen| + |attrs| + 1..]
    ensures forall j :: 0 <= j < |Split(doc)| && j != k ==>
              Split(InjectBootstrap(doc))[j] == Split(doc)[j]
  {
    var lines := Split(doc);
    NoLineByPositions(lines, HeadTag);
    FirstLineByPositions(lines, HtmlOpen, k, p);
    ReplaceFirstHtmlAt(lines[k], p, attrs);
    ReplaceFirstHtmlNoNewline(lines[k]);
    SplitOfReplacedLine(lines, k, ReplaceFirstHtml(lines[k]));
  }

  /** No line contains `<head>` and the first line containing `<html` has no
      `<html ATTRS>` with at least one attribute character (a bare `<html>`):
      the document comes back unchanged, whatever later lines hold. */
  lemma InjectBareHtmlUnchanged(doc: string, k: nat, q0: nat)
    requires forall j, q :: 0 <= j < |Split(doc)| ==> !MatchesAt(Split(doc)[j], q, HeadTag)
    requires k < |Split(doc)|
    requires forall j, q :: 0 <= j < k ==> !MatchesAt(Split(doc)[j], q, HtmlOpen)
    requires MatchesAt(Split(doc)[k], q0, HtmlOpen)
    requires forall q, a :: !HtmlTagWithAttrsAt(Split(doc)[k], q, a)
    ensures InjectBootstrap(doc) == doc
  {
    var lines := Split(doc);
    NoLineByPositions(lines, HeadTag);
    FirstLineByPositions(lines, HtmlOpen, k, q0);
    ReplaceFirstHtmlNoMatch(lines[k]);
    assert lines[k := ReplaceFirstHtml(lines[k])] == lines;
    JoinOfSplit(doc);
  }

  /** A document with neither `<head>` nor `<html` comes back unchanged. */
  lemma InjectNoTagsUnchanged(doc: string)
    requires forall j, q :: 0 <= j < |Split(doc)| ==>
               !MatchesAt(Split(doc)[j], q, HeadTag) && !MatchesAt(Split(doc)[j], q, HtmlOpen)
    ensures InjectBootstrap(doc) == doc
  {
    var lines := Split(doc);
    NoLineByPositions(lines, HeadTag);
    NoLineByPositions(lines, HtmlOpen);
    JoinOfSplit(doc);
  }

  /** A line holding `<head>` in any case grows by exactly the length of the
      script tag (the matched tag is written back in lower case); any other
      line is unchanged. */
  lemma ReplaceFirstHeadLength(line: string)
    ensures Contains(line, HeadTag) ==> |ReplaceFirstHead(line)| == |line| + |ScriptTag|
    ensures !Contains(line, HeadTag) ==> ReplaceFirstHead(line) == line
  {
  }

  /** A line holding `<html ATTRS>` in any case grows by exactly
      `<head><script …></script></head>`, the tail less the `>` it replaces
      (the matched `<html` is written back in lower case); any other line is
      unchanged. */
  lemma ReplaceFirstHtmlLength(line: string)
    ensures FindHtmlTag(line, 0).Some? ==>
              |ReplaceFirstHtml(line)| == |line| + |HtmlReplacementTail| - 1
    ensures FindHtmlTag(line, 0).None? ==> ReplaceFirstHtml(line) == line
  {
    match FindHtmlTag(line, 0)
    case None =>
    case Some(p) =>
      var n := NonGtRun(line, p + |HtmlOpen|);
      assert |HtmlReplacement(line[p + |HtmlOpen|..p + |HtmlOpen| + n])|
             == |HtmlOpen| + n + |HtmlReplacementTail|;
  }

  /** The rewriter never shortens the text: the document either comes back
      as long as it was, or longer by the script tag (a `<head>` line exists,
      and then always), or longer by exactly
      `<head><script …></script></head>`. */
  lemma InjectGrowth(doc: string)
    ensures var out := |InjectBootstrap(doc)|;
            out == |doc| || out == |doc| + |ScriptTag| || out == |doc| + |HtmlReplacementTail| - 1
    ensures (exists j :: 0 <= j < |Split(doc)| && Contains(Split(doc)[j], HeadTag)) ==>
              |InjectBootstrap(doc)| == |doc| + |ScriptTag|
  {
    var lines := Split(doc);
    JoinOfSplit(doc);
    match FirstLineWith(lines, HeadTag, 0)
    case Some(k) =>
      ReplaceFirstHeadLength(lines[k]);
      JoinLengthUpdate(lines, k, ReplaceFirstHead(lines[k]));
    case None =>
      match FirstLineWith(lines, HtmlOpen, 0)
      case Some(k) =>
        ReplaceFirstHtmlLength(lines[k]);
        JoinLengthUpdate(lines, k, ReplaceFirstHtml(lines[k]));
      case None =>
  }

  /** `<html>` holds `<html` but no `<head>`, and `/<html([^>]+)>/i` does
      not match it. */
  lemma BareHtmlLine()
    ensures forall q :: !MatchesAt("<html>", q, HeadTag)
    ensures MatchesAt("<html>", 0, HtmlOpen)
    ensures forall q, a :: !HtmlTagWithAttrsAt("<html>", q, a)
  {
    var bare := "<html>";
    assert LowerAscii(bare[2]) == 't' && HeadTag[2] == 'e';
    assert MatchesAt(bare, 0, HtmlOpen) by {
      forall k | 0 <= k < 5 ensures LowerAscii(bare[k]) == HtmlOpen[k] { }
    }
  }

  /** A page whose first line is a bare `<html>` and which has no `<head>`
      is left unchanged, even when a later line holds `<html lang="en">`. */
  lemma BareHtmlFirstExample(rest: string)
    requires forall j, q :: 0 <= j < |Split(rest)| ==> !MatchesAt(Split(rest)[j], q, HeadTag)
    ensures InjectBootstrap("<html>" + "\n" + rest) == "<html>" + "\n" + rest
  {
    BareHtmlLine();
    BareHtmlDocHasNoHead(rest);
    InjectBareHtmlUnchanged("<html>" + "\n" + rest, 0, 0);
  }

  lemma BareHtmlDocHasNoHead(rest: string)
    requires forall j, q :: 0 <= j < |Split(rest)| ==> !MatchesAt(Split(rest)[j], q, HeadTag)
    requires forall q :: !MatchesAt("<html>", q, HeadTag)
    ensures Split("<html>" + "\n" + rest)[0] == "<html>"
    ensures forall j, q :: 0 <= j < |Split("<html>" + "\n" + rest)| ==>
              !MatchesAt(Split("<html>" + "\n" + rest)[j], q, HeadTag)
  {
    var doc := "<html>" + "\n" + rest;
    FirstLineThenRest("<html>", rest);
    forall j, q | 0 <= j < |Split(doc)| ensures !MatchesAt(Split(doc)[j], q, HeadTag) {
      if j > 0 { assert Split(doc)[j] == Split(rest)[j - 1]; }
    }
  }
}
