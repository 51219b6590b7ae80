// What the three passes promise, stated over the functions of module Passes.

module Properties {
  import opened Text
  import opened Braces
  import opened Passes

  /** A construct faults exactly when its ID is never closed by a '}', or
      when the braces of its second argument never balance. */
  lemma ParseFaultsExactly(s: string, i: nat)
    requires i <= |s|
    ensures ParseConstruct(s, i).Fault? <==>
              forall b, q :: FirstAt(s, i, b, '}') ==> !ArgumentClosesAt(s, b, q)
  {
    FindChar(s, i, '}');
    var r := ParseConstruct(s, i);
    if r.Ok? {
      ParseConstructFinds(s, i);
    } else {
      forall b, q | FirstAt(s, i, b, '}') ensures !ArgumentClosesAt(s, b, q) {
        var f := FindFrom(s, "}", i);
        assert f.Some?;
        assert f.value == b;
        CloseFinds(s, f.value + 1);
      }
    }
  }

  /** The ID is the text strictly between the first '{' and the first '}' at
      or after the marker, and empty when that '{' comes after that '}'. */
  lemma IdBetweenFirstBraces(s: string, i: nat, a: nat, b: nat)
    requires FirstAt(s, i, a, '{') && FirstAt(s, i, b, '}')
    requires ParseConstruct(s, i).Ok?
    ensures a < b ==> ParseConstruct(s, i).value.id == s[a + 1..b]
    ensures b < a ==> ParseConstruct(s, i).value.id == []
  {
    FindChar(s, i, '{');
    FindChar(s, i, '}');
  }

  /** No pass ever changes the text in front of the point its search
      resumes from. */
  lemma PassKeepsPrefix(pass: Pass, s: string, from: nat)
    requires from <= |s|
    requires PassFrom(pass, s, from).Ok?
    ensures from <= |PassFrom(pass, s, from).value|
    ensures PassFrom(pass, s, from).value[..from] == s[..from]
  {
    FindFromFinds(s, Marker(pass), from);
    var r := PassFrom(pass, s, from).value;
    SamePrefixChars(s, s, from);
    SamePrefixTrans(r, s, s, from, NextMarker(pass, s, from), from);
    SamePrefixSlices(r, s, from);
  }

  /** A pass leaves everything before the first occurrence of its marker
      as it was. */
  lemma TextBeforeFirstMarkerKept(pass: Pass, s: string, i: nat)
    requires FindFrom(s, Marker(pass), 0) == Some(i)
    requires Run(pass, s).Ok?
    ensures i <= |Run(pass, s).value| && Run(pass, s).value[..i] == s[..i]
  {
    SamePrefixSlices(Run(pass, s).value, s, i);
  }

  /** A document without any \hypertarget or \hyperlink comes out of the
      script unchanged. */
  lemma ResolvedDocumentUnchanged(s: string)
    requires forall q :: !HasAt(s, q, Hypertarget) && !HasAt(s, q, Hyperlink)
    ensures FixAll(s) == Ok(s)
  {
    FindFromFinds(s, Hypertarget, 0);
    FindFromFinds(s, Hyperlink, 0);
  }

  lemma HyperlinkShape()
    ensures |Hyperlink| == 10 && Hyperlink[0] == '\\' && Hyperlink[1] == 'h'
    ensures forall x :: 1 <= x < 10 ==> Hyperlink[x] != '\\'
  {
  }

  /** Splicing a reference in at `i` creates no link starting at or before
      `i` when none started before `i`. */
  lemma RefLeavesNoLinkBehind(s: string, i: nat, id: string, rest: string)
    requires i <= |s|
    requires forall q: nat :: q < i ==> !HasAt(s, q, Hyperlink)
    ensures forall q: nat :: q <= i ==> !HasAt(s[..i] + Ref(id) + rest, q, Hyperlink)
  {
    var t := s[..i] + Ref(id) + rest;
    HyperlinkShape();
    assert t[i] == '\\' && t[i + 1] == 'r';
    forall q: nat | q <= i ensures !HasAt(t, q, Hyperlink) {
      HasAtChars(t, q, Hyperlink);
      if q + 10 <= i {
        HasAtChars(s, q, Hyperlink);
        assert forall x :: q <= x < q + 10 ==> t[x] == s[x];
      }
    }
  }

  lemma {:induction false} LinkPassFromLeavesNoLink(s: string, from: nat)
    requires from <= |s| + 1
    requires forall q: nat :: q < from ==> !HasAt(s, q, Hyperlink)
    ensures PassFrom(Links, s, from).Ok? ==> forall q: nat :: !HasAt(PassFrom(Links, s, from).value, q, Hyperlink)
    decreases |s| + 1 - from, 1
  {
    FindFromFinds(s, Hyperlink, from);
    match FindFrom(s, Hyperlink, from)
    case None =>
      forall q: nat ensures !HasAt(s, q, Hyperlink) {
        if q >= from {
        }
      }
    case Some(i) =>
      LinkPassAtLeavesNoLink(s, i);
  }

  /** A link rewritten at `i`, with no link in front of it, leaves none at
      or before `i`. */
  lemma LinkRewriteLeavesNoLinkBehind(s: string, i: nat)
    requires HasAt(s, i, Hyperlink) && LinkStep(s, i).Ok?
    requires forall q: nat :: q < i ==> !HasAt(s, q, Hyperlink)
    ensures Apply(Links, s, i).Ok? && Apply(Links, s, i).value.Rewrite?
    ensures forall q: nat :: q < i + 1 ==> !HasAt(Apply(Links, s, i).value.text, q, Hyperlink)
  {
    var c := ParseConstruct(s, i).value;
    RefLeavesNoLinkBehind(s, i, c.id, s[c.close + 1..]);
  }

  lemma {:induction false} LinkPassAtLeavesNoLink(s: string, i: nat)
    requires HasAt(s, i, Hyperlink)
    requires forall q: nat :: q < i ==> !HasAt(s, q, Hyperlink)
    ensures PassAt(Links, s, i).Ok? ==> forall q: nat :: !HasAt(PassAt(Links, s, i).value, q, Hyperlink)
    decreases |s| + 1 - i, 0
  {
    PassAtStep(Links, s, i);
    if Apply(Links, s, i).Ok? {
      LinkRewriteLeavesNoLinkBehind(s, i);
      LinkPassFromLeavesNoLink(Apply(Links, s, i).value.text, i + 1);
    }
  }

  /** Pass 2 converts every link: its output contains no \hyperlink. */
  lemma LinkPassLeavesNoLink(s: string)
    requires Run(Links, s).Ok?
    ensures forall q: nat :: !HasAt(Run(Links, s).value, q, Hyperlink)
  {
    LinkPassFromLeavesNoLink(s, 0);
  }

  /** Running pass 2 on its own output changes nothing. */
  lemma LinkPassIdempotent(s: string)
    requires Run(Links, s).Ok?
    ensures Run(Links, Run(Links, s).value) == Run(Links, s)
  {
    LinkPassLeavesNoLink(s);
    var t := Run(Links, s).value;
    FindFromFinds(t, Hyperlink, 0);
  }

  /** Pass 1 leaves a target alone when the fourteen characters after its
      second argument are not \begin{figure}, or when no \caption follows
      it; otherwise it rewrites the buffer or faults. */
  lemma FigureSkipsExactly(s: string, i: nat, c: Construct)
    requires HasAt(s, i, Hypertarget)
    requires ParseConstruct(s, i) == Ok(c)
    ensures FigureStep(s, i) == Ok(Skip) <==>
              !HasAt(s, c.close + 1, BeginFigure) || forall q :: i <= q ==> !HasAt(s, q, Caption)
  {
    FindFromFinds(s, Caption, i);
  }

  /** Inserting at `e` and then removing s[i..j], with i <= j <= e. */
  lemma SpliceBehind(s: string, i: nat, j: nat, e: nat, w: string)
    requires i <= j <= e <= |s|
    ensures Remove(Insert(s, e, w), i, j) == s[..i] + s[j..e] + w + s[e..]
  {
  }

  /** Lines 40-59, for a caption after the target's arguments. */
  lemma CaptionShape(s: string, i: nat, c: Construct, k: nat, e: nat)
    requires i <= c.close < |s|
    requires HasAt(s, k, Caption) && forall q :: i <= q < k ==> !HasAt(s, q, Caption)
    requires c.close < k && Close(s, k) == Some(e)
    ensures LabelCaption(s, i, c) == Ok(Rewrite(s[..i] + s[c.close + 1..e] + Label(c.id) + s[e..]))
  {
    FindFromFinds(s, Caption, i);
    CaptionLabelled(s, i, c, k, e);
    SpliceBehind(s, i, c.close + 1, e, Label(c.id));
  }

  /** Pass 1, for a target followed by \begin{figure} whose caption comes
      after it: the wrapper and its arguments are gone, and \label{ID} sits
      just inside the caption's closing brace. */
  lemma FigureRewriteShape(s: string, i: nat, c: Construct, k: nat, e: nat)
    requires HasAt(s, i, Hypertarget)
    requires ParseConstruct(s, i) == Ok(c)
    requires HasAt(s, c.close + 1, BeginFigure)
    requires HasAt(s, k, Caption) && forall q :: i <= q < k ==> !HasAt(s, q, Caption)
    requires c.close < k && Close(s, k) == Some(e)
    ensures s[e] == '}'
    ensures FigureStep(s, i) == Ok(Rewrite(s[..i] + s[c.close + 1..e] + Label(c.id) + s[e..]))
  {
    FigureTakesCaption(s, i, c);
    CaptionShape(s, i, c, k, e);
  }

  /** Pass 3 drops an internal target (its ID contains --doc-src) with its
      arguments, and inserts no label. */
  lemma InternalTargetDropped(s: string, i: nat, c: Construct)
    requires HasAt(s, i, Hypertarget)
    requires ParseConstruct(s, i) == Ok(c)
    requires exists q :: HasAt(c.id, q, DocSrc)
    ensures SectionStep(s, i) == Ok(Rewrite(s[..i] + s[c.close + 1..]))
  {
    FindFromFinds(c.id, DocSrc, 0);
    SectionDropsInternal(s, i, c);
  }

  /** Pass 3 looks only at the first backslash after a target: the target is
      left alone unless a sectioning command starts there. */
  lemma SectionSkipsExactly(s: string, i: nat, c: Construct, p: nat)
    requires HasAt(s, i, Hypertarget)
    requires ParseConstruct(s, i) == Ok(c)
    requires forall q :: !HasAt(c.id, q, DocSrc)
    requires FirstAt(s, c.close + 1, p, '\\')
    ensures SectionStep(s, i) == Ok(Skip) <==> !OpensSection(s, p)
  {
    FindChar(s, c.close + 1, '\\');
    FindFromFinds(c.id, DocSrc, 0);
    SectionTakesLabel(s, i, c);
    SectionFindsCommand(s, i, c, p);
  }

  /** Lines 121-145, for a sectioning command at the first backslash after
      the target. */
  lemma CommandShape(s: string, i: nat, c: Construct, p: nat, k: nat)
    requires i <= c.close < |s|
    requires FirstAt(s, c.close + 1, p, '\\') && OpensSection(s, p)
    requires Close(s, p) == Some(k)
    ensures LabelSection(s, i, c) == Ok(Rewrite(s[..i] + s[p..k + 1] + Label(c.id) + s[k + 1..]))
  {
    FindChar(s, c.close + 1, '\\');
    SectionFindsCommand(s, i, c, p);
    SectionLabelled(s, i, c, p, k);
    SpliceBehind(s, i, p, k + 1, Label(c.id));
  }

  /** Pass 3 for a target followed, at the next backslash, by a sectioning
      command: everything from the target up to that backslash is gone, and
      \label{ID} follows the command's argument. */
  lemma SectionRewriteShape(s: string, i: nat, c: Construct, p: nat, k: nat)
    requires HasAt(s, i, Hypertarget)
    requires ParseConstruct(s, i) == Ok(c)
    requires forall q :: !HasAt(c.id, q, DocSrc)
    requires FirstAt(s, c.close + 1, p, '\\') && OpensSection(s, p)
    requires Close(s, p) == Some(k)
    ensures SectionStep(s, i) == Ok(Rewrite(s[..i] + s[p..k + 1] + Label(c.id) + s[k + 1..]))
  {
    FindFromFinds(c.id, DocSrc, 0);
    SectionTakesLabel(s, i, c);
    CommandShape(s, i, c, p, k);
  }
}
