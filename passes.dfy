// What the three rewrite loops of sphinx/fixrefs.py compute, as functions of
// the buffer. Each pass looks for its marker from a start offset, applies one
// step at the occurrence it finds (skip it, rewrite the buffer, or fault),
// and resumes the search one character after that occurrence.

module Passes {
  import opened Text
  import opened Braces

  const Hypertarget := "\\hypertarget"
  const Hyperlink := "\\hyperlink"
  const BeginFigure := "\\begin{figure}"
  const Caption := "\\caption"
  const Backslash := "\\"
  const DocSrc := "--doc-src"
  const Chapter := "\\chapter{"
  const Section := "\\section{"
  const Subsection := "\\subsection{"
  const Subsubsection := "\\subsubsection{"

  function Label(id: string): string { "\\label{" + id + "}" }

  function Ref(id: string): string { "\\ref{" + id + "}" }

  /** A located \hypertarget{ID}{...} or \hyperlink{ID}{...}: its ID, the
      offset of the '}' that ends the ID, and the offset of the '}' that
      closes the second argument. */
  datatype Construct = Construct(id: string, idEnd: nat, close: nat)

  /** `b` is the first occurrence of `c` at or after `i`. */
  predicate FirstAt(s: string, i: nat, b: nat, c: char)
  {
    i <= b < |s| && s[b] == c && forall t :: i <= t < b ==> s[t] != c
  }

  /** The second argument's brace, scanned from just after the ID's '}',
      closes at `q`. */
  predicate ArgumentClosesAt(s: string, b: nat, q: nat)
  {
    Closes(s, b + 1, q)
  }

  lemma FindChar(s: string, i: nat, c: char)
    ensures FindFrom(s, [c], i).Some? ==> FirstAt(s, i, FindFrom(s, [c], i).value, c)
    ensures forall x :: i <= x < |s| && s[x] == c ==> FindFrom(s, [c], i).Some?
  {
    FindFromFinds(s, [c], i);
    var r := FindFrom(s, [c], i);
    if r.Some? {
      forall t | i <= t < r.value ensures s[t] != c {
        HasAtChars(s, t, [c]);
      }
    }
    forall x | i <= x < |s| && s[x] == c ensures r.Some? {
      assert HasAt(s, x, [c]);
    }
  }

  /** Lines 18-35 (and 69-86, 98-115): the ID is the text between the first
      '{' and the first '}' at or after the marker, and the scan for the
      second argument starts just after that '}'. */
  function ParseConstruct(s: string, i: nat): (r: Result<Construct>)
    requires i <= |s|
    ensures r.Ok? ==> i <= r.value.idEnd < r.value.close < |s|
  {
    FindFromFinds(s, "{", i);
    FindFromFinds(s, "}", i);
    var a := FindFrom(s, "{", i);
    var b := FindFrom(s, "}", i);
    if b.None? then Fault
    else
      var lo := if a.Some? then a.value + 1 else 0;
      CloseFinds(s, b.value + 1);
      match Close(s, b.value + 1)
      case None => Fault
      case Some(j) => Ok(Construct(Slice(s, lo, b.value), b.value, j))
  }

  /** The ID ends at the first '}' at or after the marker, and the second
      argument ends at the first '}' that balances the braces scanned from
      just after it. */
  lemma ParseConstructFinds(s: string, i: nat)
    requires i <= |s| && ParseConstruct(s, i).Ok?
    ensures FirstAt(s, i, ParseConstruct(s, i).value.idEnd, '}')
    ensures ArgumentClosesAt(s, ParseConstruct(s, i).value.idEnd, ParseConstruct(s, i).value.close)
    ensures forall q :: ParseConstruct(s, i).value.idEnd + 1 <= q < ParseConstruct(s, i).value.close ==>
              !ArgumentClosesAt(s, ParseConstruct(s, i).value.idEnd, q)
  {
    FindChar(s, i, '}');
    CloseFinds(s, FindFrom(s, "}", i).value + 1);
  }

  /** Behind a brace-free marker, a parsed construct spans more than its ID
      and the marker: at least the marker, the ID, and three braces. */
  lemma SpanOutweighsId(s: string, i: nat, w: string, c: Construct)
    requires HasAt(s, i, w) && BraceFree(w)
    requires ParseConstruct(s, i) == Ok(c)
    ensures |c.id| + |w| + 2 <= c.close - i
  {
    HasAtChars(s, i, w);
    ParseConstructFinds(s, i);
    var b := c.idEnd;
    OpenBeforeClose(s, b + 1, c.close);
    var x :| b + 1 <= x < c.close && s[x] == '{';
    FindChar(s, i, '{');
    var a := FindFrom(s, "{", i).value;
    assert s[a] == '{';
    assert s[b] == '}';
  }

  /** What one step does with the occurrence it is given. */
  datatype Step = Skip | Rewrite(text: string)

  /** Lines 37-59: a target immediately followed by \begin{figure} moves its
      ID into the first \caption at or after it. */
  function FigureStep(s: string, i: nat): Result<Step>
    requires i <= |s|
  {
    match ParseConstruct(s, i)
    case Fault => Fault
    case Ok(c) =>
      if !HasAt(s, c.close + 1, BeginFigure) then Ok(Skip)
      else LabelCaption(s, i, c)
  }

  /** Lines 40-59, once the target is known to precede a figure. */
  function LabelCaption(s: string, i: nat, c: Construct): Result<Step>
    requires i <= c.close < |s|
  {
    FindFromFinds(s, Caption, i);
    match FindFrom(s, Caption, i)
    case None => Ok(Skip)
    case Some(k) =>
      CloseFinds(s, k);
      match Close(s, k)
      case None => Fault
      case Some(e) => Ok(Rewrite(Remove(Insert(s, e, Label(c.id)), i, c.close + 1)))
  }

  /** Line 88: the whole link is replaced by a reference to its ID. */
  function LinkStep(s: string, i: nat): Result<Step>
    requires i <= |s|
  {
    match ParseConstruct(s, i)
    case Fault => Fault
    case Ok(c) => Ok(Rewrite(s[..i] + Ref(c.id) + s[c.close + 1..]))
  }

  /** Line 127: the text at `p` opens one of the four sectioning commands. */
  predicate OpensSection(s: string, p: nat)
  {
    HasAt(s, p, Chapter) || HasAt(s, p, Section) || HasAt(s, p, Subsection) || HasAt(s, p, Subsubsection)
  }

  /** Lines 117-145: internal targets are dropped; any other target
      followed, at the next backslash, by a sectioning command is replaced by
      a label after that command's argument. */
  function SectionStep(s: string, i: nat): Result<Step>
    requires i <= |s|
  {
    match ParseConstruct(s, i)
    case Fault => Fault
    case Ok(c) =>
      if FindFrom(c.id, DocSrc, 0).Some? then Ok(Rewrite(Remove(s, i, c.close + 1)))
      else LabelSection(s, i, c)
  }

  /** Lines 121-145, for a target whose ID is not internal. */
  function LabelSection(s: string, i: nat, c: Construct): Result<Step>
    requires i <= c.close < |s|
  {
    FindFromFinds(s, Backslash, c.close + 1);
    match FindFrom(s, Backslash, c.close + 1)
    case None => Fault
    case Some(p) => LabelCommand(s, i, c, p)
  }

  /** Lines 127-145, for the first backslash `p` after the target. */
  function LabelCommand(s: string, i: nat, c: Construct, p: nat): Result<Step>
    requires i <= p < |s|
  {
    if !OpensSection(s, p) then Ok(Skip)
    else
      CloseFinds(s, p);
      match Close(s, p)
      case None => Fault
      case Some(k) => Ok(Rewrite(Remove(Insert(s, k + 1, Label(c.id)), i, p)))
  }

  // Unfolding steps, one branch at a time.

  lemma FigureTakesCaption(s: string, i: nat, c: Construct)
    requires i <= |s| && ParseConstruct(s, i) == Ok(c)
    requires HasAt(s, c.close + 1, BeginFigure)
    ensures FigureStep(s, i) == LabelCaption(s, i, c)
  {
  }

  lemma CaptionLabelled(s: string, i: nat, c: Construct, k: nat, e: nat)
    requires i <= c.close < |s|
    requires FindFrom(s, Caption, i) == Some(k) && i <= k <= |s|
    requires Close(s, k) == Some(e)
    ensures LabelCaption(s, i, c) == Ok(Rewrite(Remove(Insert(s, e, Label(c.id)), i, c.close + 1)))
  {
  }

  lemma SectionTakesLabel(s: string, i: nat, c: Construct)
    requires i <= |s| && ParseConstruct(s, i) == Ok(c)
    requires FindFrom(c.id, DocSrc, 0).None?
    ensures SectionStep(s, i) == LabelSection(s, i, c)
  {
  }

  lemma SectionFindsCommand(s: string, i: nat, c: Construct, p: nat)
    requires i <= c.close < |s|
    requires FindFrom(s, Backslash, c.close + 1) == Some(p) && c.close < p < |s|
    ensures LabelSection(s, i, c) == LabelCommand(s, i, c, p)
  {
  }

  lemma SectionLabelled(s: string, i: nat, c: Construct, p: nat, k: nat)
    requires i <= p < |s| && OpensSection(s, p)
    requires Close(s, p) == Some(k)
    ensures LabelCommand(s, i, c, p) == Ok(Rewrite(Remove(Insert(s, k + 1, Label(c.id)), i, p)))
  {
  }

  /** Splicing `w` in at `e` and cutting s[i..j], where j - i exceeds |w|,
      shortens the buffer and keeps s[..i]. */
  lemma SpliceShrinks(s: string, i: nat, j: nat, e: nat, w: string)
    requires i <= e <= |s| && i <= j <= |s| + |w| && |w| < j - i
    ensures |Remove(Insert(s, e, w), i, j)| < |s| && SamePrefix(Remove(Insert(s, e, w), i, j), s, i)
  {
    SamePrefixChars(Remove(Insert(s, e, w), i, j), s, i);
  }

  lemma CaptionSpliceShrinks(s: string, i: nat, c: Construct, k: nat, e: nat)
    requires HasAt(s, i, Hypertarget) && ParseConstruct(s, i) == Ok(c)
    requires FindFrom(s, Caption, i) == Some(k) && i <= k <= |s|
    requires Close(s, k) == Some(e)
    ensures |Remove(Insert(s, e, Label(c.id)), i, c.close + 1)| < |s|
    ensures SamePrefix(Remove(Insert(s, e, Label(c.id)), i, c.close + 1), s, i)
  {
    SpanOutweighsId(s, i, Hypertarget, c);
    SpliceShrinks(s, i, c.close + 1, e, Label(c.id));
  }

  /** A rewrite by pass 1 shortens the buffer and keeps all text in front of
      the target. */
  lemma FigureShrinks(s: string, i: nat)
    requires HasAt(s, i, Hypertarget)
    ensures FigureStep(s, i).Ok? && FigureStep(s, i).value.Rewrite? ==>
              |FigureStep(s, i).value.text| < |s| && SamePrefix(FigureStep(s, i).value.text, s, i)
  {
    match ParseConstruct(s, i)
    case Fault =>
    case Ok(c) =>
      if HasAt(s, c.close + 1, BeginFigure) {
        FigureTakesCaption(s, i, c);
        FindFromFinds(s, Caption, i);
        match FindFrom(s, Caption, i)
        case None =>
        case Some(k) =>
          match Close(s, k)
          case None =>
          case Some(e) =>
            CaptionLabelled(s, i, c, k, e);
            CaptionSpliceShrinks(s, i, c, k, e);
      }
  }

  /** Pass 2 always rewrites, to a shorter buffer with the same text in
      front of the link. */
  lemma LinkShrinks(s: string, i: nat)
    requires HasAt(s, i, Hyperlink)
    ensures LinkStep(s, i).Ok? ==> LinkStep(s, i).value.Rewrite?
    ensures LinkStep(s, i).Ok? ==>
              |LinkStep(s, i).value.text| < |s| && SamePrefix(LinkStep(s, i).value.text, s, i)
  {
    match ParseConstruct(s, i)
    case Fault =>
    case Ok(c) =>
      SpanOutweighsId(s, i, Hyperlink, c);
      SamePrefixChars(s[..i] + Ref(c.id) + s[c.close + 1..], s, i);
  }

  /** Lines 117-119: an internal target goes, with its arguments. */
  lemma SectionDropsInternal(s: string, i: nat, c: Construct)
    requires i <= |s| && ParseConstruct(s, i) == Ok(c)
    requires FindFrom(c.id, DocSrc, 0).Some?
    ensures SectionStep(s, i) == Ok(Rewrite(Remove(s, i, c.close + 1)))
  {
  }

  lemma CommandSpliceShrinks(s: string, i: nat, c: Construct, p: nat)
    requires i <= p < |s| && |Label(c.id)| < p - i
    ensures LabelCommand(s, i, c, p).Ok? && LabelCommand(s, i, c, p).value.Rewrite? ==>
              |LabelCommand(s, i, c, p).value.text| < |s| && SamePrefix(LabelCommand(s, i, c, p).value.text, s, i)
  {
    if OpensSection(s, p) {
      match Close(s, p)
      case None =>
      case Some(k) =>
        SectionLabelled(s, i, c, p, k);
        SpliceShrinks(s, i, p, k + 1, Label(c.id));
    }
  }

  /** Lines 121-145 shorten the buffer whenever they rewrite it: the label
      is shorter than the target it replaces. */
  lemma LabelSectionShrinks(s: string, i: nat, c: Construct)
    requires i <= c.close < |s| && |Label(c.id)| < c.close + 1 - i
    ensures LabelSection(s, i, c).Ok? && LabelSection(s, i, c).value.Rewrite? ==>
              |LabelSection(s, i, c).value.text| < |s| && SamePrefix(LabelSection(s, i, c).value.text, s, i)
  {
    match FindFrom(s, Backslash, c.close + 1)
    case None =>
    case Some(p) =>
      SectionFindsCommand(s, i, c, p);
      CommandSpliceShrinks(s, i, c, p);
  }

  /** A rewrite by pass 3 shortens the buffer and keeps all text in front of
      the target. */
  lemma SectionShrinks(s: string, i: nat)
    requires HasAt(s, i, Hypertarget)
    ensures SectionStep(s, i).Ok? && SectionStep(s, i).value.Rewrite? ==>
              |SectionStep(s, i).value.text| < |s| && SamePrefix(SectionStep(s, i).value.text, s, i)
  {
    match ParseConstruct(s, i)
    case Fault =>
    case Ok(c) =>
      SpanOutweighsId(s, i, Hypertarget, c);
      if FindFrom(c.id, DocSrc, 0).Some? {
        SectionDropsInternal(s, i, c);
        SamePrefixChars(Remove(s, i, c.close + 1), s, i);
      } else {
        SectionTakesLabel(s, i, c);
        LabelSectionShrinks(s, i, c);
      }
  }

  datatype Pass = Figures | Links | Sections

  function Marker(pass: Pass): string
  {
    if pass == Links then Hyperlink else Hypertarget
  }

  function Apply(pass: Pass, s: string, i: nat): (r: Result<Step>)
    requires HasAt(s, i, Marker(pass))
    ensures r.Ok? && r.value.Rewrite? ==> |r.value.text| < |s| && SamePrefix(r.value.text, s, i)
  {
    match pass
    case Figures => FigureShrinks(s, i); FigureStep(s, i)
    case Links => LinkShrinks(s, i); LinkStep(s, i)
    case Sections => SectionShrinks(s, i); SectionStep(s, i)
  }

  /** Where the first marker at or after `from` starts, or the end of the
      buffer when there is none. */
  function NextMarker(pass: Pass, s: string, from: nat): nat
  {
    match FindFrom(s, Marker(pass), from)
    case None => |s|
    case Some(i) => i
  }

  /** The pass, resumed with the search for its marker starting at `from`.
      Nothing in front of the next marker is ever changed. */
  function PassFrom(pass: Pass, s: string, from: nat): (r: Result<string>)
    requires from <= |s| + 1
    ensures r.Ok? ==> SamePrefix(r.value, s, NextMarker(pass, s, from))
    decreases |s| + 1 - from, 1
  {
    match FindFrom(s, Marker(pass), from)
    case None => SamePrefixChars(s, s, |s|); Ok(s)
    case Some(i) => PassAt(pass, s, i)
  }

  /** The pass from the marker at `i` on: the step there, then the search
      resumed one character further. Every rewrite shrinks the buffer, so
      `|s| + 1 - i` decreases. Nothing in front of `i` is ever changed. */
  function PassAt(pass: Pass, s: string, i: nat): (r: Result<string>)
    requires HasAt(s, i, Marker(pass))
    ensures r.Ok? ==> SamePrefix(r.value, s, i)
    decreases |s| + 1 - i, 0
  {
    match Apply(pass, s, i)
    case Fault => Fault
    case Ok(Skip) =>
      var r := PassFrom(pass, s, i + 1);
      if r.Ok? then
        SamePrefixChars(s, s, i);
        SamePrefixTrans(r.value, s, s, i, NextMarker(pass, s, i + 1), i);
        r
      else r
    case Ok(Rewrite(t)) =>
      var r := PassFrom(pass, t, i + 1);
      if r.Ok? then SamePrefixTrans(r.value, t, s, i, NextMarker(pass, t, i + 1), i); r
      else r
  }

  /** How the pass goes on at the marker at `i`, as the step there decides. */
  lemma PassAtStep(pass: Pass, s: string, i: nat)
    requires HasAt(s, i, Marker(pass))
    ensures Apply(pass, s, i).Fault? ==> PassAt(pass, s, i).Fault?
    ensures Apply(pass, s, i) == Ok(Skip) ==> PassAt(pass, s, i) == PassFrom(pass, s, i + 1)
    ensures Apply(pass, s, i).Ok? && Apply(pass, s, i).value.Rewrite? ==>
              PassAt(pass, s, i) == PassFrom(pass, Apply(pass, s, i).value.text, i + 1)
  {
  }

  /** One whole pass over the buffer (the script starts with i = -1 and
      searches from i + 1). */
  function Run(pass: Pass, s: string): Result<string>
  {
    PassFrom(pass, s, 0)
  }

  /** The script: figure targets, then hyperlinks, then the remaining targets. */
  function FixAll(s: string): Result<string>
  {
    match Run(Figures, s)
    case Fault => Fault
    case Ok(s1) =>
      match Run(Links, s1)
      case Fault => Fault
      case Ok(s2) => Run(Sections, s2)
  }
}
