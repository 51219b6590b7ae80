// The script sphinx/fixrefs.py as it runs: one buffer `s`, three loops that
// search it with a cursor `i` and splice it. Reading the file named on the
// command line and writing the buffer back are left to the caller: the
// script's transformation is `Process`.

module FixRefs {
  import opened Text
  import opened Braces
  import opened Passes

  /** Lines 18-35: the ID and the closing brace of the second argument of
      the construct whose marker starts at `i`. */
  method ReadConstruct(s: string, i: nat) returns (r: Result<Construct>)
    requires i <= |s|
    ensures r == ParseConstruct(s, i)
  {
    var a := FindFrom(s, "{", i);
    var b := FindFrom(s, "}", i);
    FindFromFinds(s, "{", i);
    FindFromFinds(s, "}", i);
    if b.None? {
      return Fault;
    }
    var id := Slice(s, if a.Some? then a.value + 1 else 0, b.value);
    var j := MatchBrace(s, b.value + 1);
    if j.None? {
      return Fault;
    }
    return Ok(Construct(id, b.value, j.value));
  }

  /** Lines 121-125: advance to the next backslash at or after `p`; None
      where the script indexes past the end of the buffer. */
  method SkipToBackslash(s: string, p: nat) returns (r: Option<nat>)
    requires p <= |s|
    ensures r == FindFrom(s, Backslash, p)
  {
    FindChar(s, p, '\\');
    var j := p;
    while j < |s|
      invariant p <= j <= |s|
      invariant forall t :: p <= t < j ==> s[t] != '\\'
    {
      if s[j] == '\\' {
        return Some(j);
      }
      j := j + 1;
    }
    return None;
  }

  /** Lines 18-59, for the target at `i`: `continue` is Skip. */
  method FigureAt(s: string, i: nat) returns (r: Result<Step>)
    requires HasAt(s, i, Hypertarget)
    ensures r == FigureStep(s, i)
  {
    var c := ReadConstruct(s, i);
    if c.Fault? {
      return Fault;
    }
    var j := c.value.close;
    if !HasAt(s, j + 1, BeginFigure) {
      return Ok(Skip);
    }
    FigureTakesCaption(s, i, c.value);
    r := CaptionAt(s, i, c.value);
  }

  /** Lines 40-59, once the target is known to precede a figure. */
  method CaptionAt(s: string, i: nat, c: Construct) returns (r: Result<Step>)
    requires i <= c.close < |s|
    ensures r == LabelCaption(s, i, c)
  {
    var k := FindFrom(s, Caption, i);
    if k.None? {
      return Ok(Skip);
    }
    var e := MatchBrace(s, k.value);
    if e.None? {
      return Fault;
    }
    CaptionLabelled(s, i, c, k.value, e.value);
    var t := Insert(s, e.value, Label(c.id));
    t := Remove(t, i, c.close + 1);
    return Ok(Rewrite(t));
  }

  /** Lines 10-59: targets immediately followed by a figure. */
  method FigurePass(input: string) returns (r: Result<string>)
    ensures r == Run(Figures, input)
  {
    var s := input;
    var i := -1;
    while true
      invariant -1 <= i <= |s|
      invariant PassFrom(Figures, s, i + 1) == Run(Figures, input)
      decreases |s| - i
    {
      var found := FindFrom(s, Hypertarget, i + 1);
      if found.None? {
        break;
      }
      i := found.value;
      PassAtStep(Figures, s, i);
      var step := FigureAt(s, i);
      match step
      case Fault => return Fault;
      case Ok(Skip) =>
      case Ok(Rewrite(t)) => s := t;
    }
    return Ok(s);
  }

  /** Lines 69-88, for the link at `i`. */
  method LinkAt(s: string, i: nat) returns (r: Result<Step>)
    requires HasAt(s, i, Hyperlink)
    ensures r == LinkStep(s, i)
  {
    var c := ReadConstruct(s, i);
    if c.Fault? {
      return Fault;
    }
    return Ok(Rewrite(s[..i] + Ref(c.value.id) + s[c.value.close + 1..]));
  }

  /** Lines 61-88: every link becomes a reference. */
  method LinkPass(input: string) returns (r: Result<string>)
    ensures r == Run(Links, input)
  {
    var s := input;
    var i := -1;
    while true
      invariant -1 <= i <= |s|
      invariant PassFrom(Links, s, i + 1) == Run(Links, input)
      decreases |s| - i
    {
      var found := FindFrom(s, Hyperlink, i + 1);
      if found.None? {
        break;
      }
      i := found.value;
      PassAtStep(Links, s, i);
      var step := LinkAt(s, i);
      match step
      case Fault => return Fault;
      case Ok(Skip) =>
      case Ok(Rewrite(t)) => s := t;
    }
    return Ok(s);
  }

  /** Lines 98-145, for the target at `i`: `continue` after line 119 is
      a rewrite, a fault at lines 121-125 is the search for a backslash
      running off the end. */
  method SectionAt(s: string, i: nat) returns (r: Result<Step>)
    requires HasAt(s, i, Hypertarget)
    ensures r == SectionStep(s, i)
  {
    var c := ReadConstruct(s, i);
    if c.Fault? {
      return Fault;
    }
    var j := c.value.close;
    if FindFrom(c.value.id, DocSrc, 0).Some? {
      SectionDropsInternal(s, i, c.value);
      return Ok(Rewrite(Remove(s, i, j + 1)));
    }
    SectionTakesLabel(s, i, c.value);
    var p := SkipToBackslash(s, j + 1);
    FindFromFinds(s, Backslash, j + 1);
    if p.None? {
      return Fault;
    }
    SectionFindsCommand(s, i, c.value, p.value);
    r := CommandAt(s, i, c.value, p.value);
  }

  /** Lines 127-145, for the first backslash `p` after the target: `continue`
      at line 128 is Skip. */
  method CommandAt(s: string, i: nat, c: Construct, p: nat) returns (r: Result<Step>)
    requires i <= p < |s|
    ensures r == LabelCommand(s, i, c, p)
  {
    if !OpensSection(s, p) {
      return Ok(Skip);
    }
    var k := MatchBrace(s, p);
    if k.None? {
      return Fault;
    }
    var t := Insert(s, k.value + 1, Label(c.id));
    t := Remove(t, i, p);
    return Ok(Rewrite(t));
  }

  /** Lines 90-145: the targets that remain, in front of sectioning commands. */
  method SectionPass(input: string) returns (r: Result<string>)
    ensures r == Run(Sections, input)
  {
    var s := input;
    var i := -1;
    while true
      invariant -1 <= i <= |s|
      invariant PassFrom(Sections, s, i + 1) == Run(Sections, input)
      decreases |s| - i
    {
      var found := FindFrom(s, Hypertarget, i + 1);
      if found.None? {
        break;
      }
      i := found.value;
      PassAtStep(Sections, s, i);
      var step := SectionAt(s, i);
      match step
      case Fault => return Fault;
      case Ok(Skip) =>
      case Ok(Rewrite(t)) => s := t;
    }
    return Ok(s);
  }

  /** The whole script on the file's contents. */
  method Process(input: string) returns (r: Result<string>)
    ensures r == FixAll(input)
  {
    r := FigurePass(input);
    if r.Fault? {
      return;
    }
    r := LinkPass(r.value);
    if r.Fault? {
      return;
    }
    r := SectionPass(r.value);
  }
}
