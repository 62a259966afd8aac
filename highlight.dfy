/**
 * `highlightSpan` (assets/js/taxonomy.js:34-53): wraps the characters
 * `text[start..end)` of an example sentence in a coloured `<span>`, the colour
 * being that of the nearest node with a role on the way up to the root.
 */
module Highlight {
  import opened Wrappers
  import opened Colors
  import opened Hierarchy

  /** JavaScript's relative index of `String.prototype.slice`: negative offsets count from the end. */
  function RelIndex(i: int, len: nat): (r: nat)
    ensures r <= len
    ensures 0 <= i <= len ==> r == i
    ensures i > len ==> r == len
    ensures i < 0 ==> r == if len + i < 0 then 0 else len + i
  {
    if i < 0 then (if len + i < 0 then 0 else len + i)
    else if i < len then i else len
  }

  /** `s.slice(from, to)`: empty when the first relative index is not before the second. */
  function Slice(s: string, from: int, to: int): (r: string)
    ensures |r| <= |s|
    ensures 0 <= from <= to <= |s| ==> r == s[from..to]
    ensures RelIndex(from, |s|) >= RelIndex(to, |s|) ==> r == ""
  {
    var a := RelIndex(from, |s|);
    var b := RelIndex(to, |s|);
    if a < b then s[a..b] else ""
  }

  /** `s.slice(from)`. */
  function SliceFrom(s: string, from: int): (r: string)
    ensures 0 <= from <= |s| ==> r == s[from..]
    ensures from >= |s| ==> r == ""
  {
    s[RelIndex(from, |s|)..]
  }

  function MarkerOpen(color: string): string
  {
    "<span class=\"highlighted-entity\" style=\"background-color: " + color
      + "; color: white; font-weight: bold; padding: 0 2px; border-radius: 2px;\">"
  }

  const MarkerClose: string := "</span>"

  /** The fallback colour when no known role is found (line 50). */
  const NoRoleColor: string := "#ffc"

  /** The colour of the highlight: palette entry of the nearest truthy role, or the fallback. */
  function HighlightColor(h: Tree, n: nat): string
    requires WellFormed(h) && n < |h.nodes|
  {
    PaletteOr(NearestRole(h, n), NoRoleColor)
  }

  /**
   * The assembly of line 52 for arbitrary opening and closing marker strings:
   * without a pair of offsets the text itself, otherwise the text before the
   * span, the opener, the span, the closer and the text after it.
   */
  function Spliced(text: string, span: Option<seq<int>>, open: string, close: string): string
  {
    if span.None? || |span.value| != 2 then text
    else
      var start, end := span.value[0], span.value[1];
      Slice(text, 0, start) + open + Slice(text, start, end) + close + SliceFrom(text, end)
  }

  /** The string `highlightSpan` returns, for a given highlight colour. */
  function Marked(text: string, span: Option<seq<int>>, color: string): string
  {
    Spliced(text, span, MarkerOpen(color), MarkerClose)
  }

  /**
   * Lines 43-50 of `highlightSpan`: walk up from the node while the role is
   * falsy and there is a parent, then look the role up in the palette.
   */
  method SpanColor(h: Tree, n: nat) returns (color: string)
    requires WellFormed(h) && n < |h.nodes|
    ensures color == HighlightColor(h, n)
  {
    var role := h.nodes[n].data.role;
    var current := n;
    while !Truthy(role) && h.nodes[current].parent.Some?
      invariant current < |h.nodes|
      invariant role == h.nodes[current].data.role
      invariant NearestRole(h, n) == NearestRole(h, current)
      decreases current
    {
      assert current != Root;
      current := h.nodes[current].parent.value;
      role := h.nodes[current].data.role;
    }
    // the walk stops at a truthy role, or at the root, whose role is falsy
    if !Truthy(role) {
      assert current != Root ==> ParentOk(h, current);
      assert current == Root;
    }
    color := PaletteOr(role, NoRoleColor);
  }

  /**
   * `highlightSpan(text, span, node)`: the guard, the role walk, and the
   * slicing and assembly, which depend on the text, the span and the colour
   * alone.
   */
  method HighlightSpan(text: string, span: Option<seq<int>>, h: Tree, n: nat) returns (html: string)
    requires WellFormed(h) && n < |h.nodes|
    ensures html == Marked(text, span, HighlightColor(h, n))
  {
    if span.None? || |span.value| != 2 {
      MarkedWithoutPair(text, span, HighlightColor(h, n));
      return text;
    }
    var color := SpanColor(h, n);
    html := Marked(text, span, color);
  }

  lemma MarkedWithoutPair(text: string, span: Option<seq<int>>, color: string)
    requires span.None? || |span.value| != 2
    ensures Marked(text, span, color) == text
  {
    NoPairUnchanged(text, span, MarkerOpen(color), MarkerClose);
  }

  // The lemmas below are stated for any pair of marker strings; `Marked`
  // is the instance with the `<span ...>` opener and `</span>` closer.

  /** Without a span of exactly two offsets the text comes back unchanged (line 35). */
  lemma NoPairUnchanged(text: string, span: Option<seq<int>>, open: string, close: string)
    requires span.None? || |span.value| != 2
    ensures Spliced(text, span, open, close) == text
  {
  }

  /**
   * For offsets in range and in order the result is the text with the markers
   * wrapped around `text[start..end)`: dropping the two markers gives back the
   * text.
   */
  lemma SplicedRoundTrip(text: string, start: int, end: int, open: string, close: string)
    requires 0 <= start <= end <= |text|
    ensures var pre, mid, post := text[..start], text[start..end], text[end..];
      && Spliced(text, Some([start, end]), open, close) == pre + open + mid + close + post
      && pre + mid + post == text
  {
    assert text[..start] + text[start..end] + text[end..] == text;
  }

  /**
   * For any pair of offsets, once resolved against the length: if they are in
   * order the text is split at them; otherwise nothing lies between the
   * markers and the characters between the two resolved offsets appear twice.
   */
  lemma SplicedAnyOffsets(text: string, start: int, end: int, open: string, close: string)
    ensures var a, b := RelIndex(start, |text|), RelIndex(end, |text|);
      Spliced(text, Some([start, end]), open, close) ==
        if a <= b then text[..a] + open + text[a..b] + close + text[b..]
        else text[..a] + open + close + text[b..]
  {
    var a, b := RelIndex(start, |text|), RelIndex(end, |text|);
    assert Slice(text, 0, start) == text[..a];
    assert SliceFrom(text, end) == text[b..];
    if a < b {
      assert Slice(text, start, end) == text[a..b];
    } else {
      assert Slice(text, start, end) == "";
    }
  }

  /** An example: reversed offsets duplicate the characters between them. */
  lemma ReversedSpanExample(open: string, close: string)
    ensures Spliced("abcd", Some([3, 1]), open, close) == "abc" + open + close + "bcd"
  {
    SplicedAnyOffsets("abcd", 3, 1, open, close);
    assert "abcd"[..3] == "abc" && "abcd"[1..] == "bcd";
  }

  /** The same for the span marker itself: the result for given offsets in range. */
  lemma MarkedInRange(text: string, start: int, end: int, color: string)
    requires 0 <= start <= end <= |text|
    ensures Marked(text, Some([start, end]), color)
      == text[..start] + MarkerOpen(color) + text[start..end] + MarkerClose + text[end..]
  {
    SplicedRoundTrip(text, start, end, MarkerOpen(color), MarkerClose);
  }

  /**
   * The fallback colour is used exactly when no node on the upward path has a
   * role the palette knows: either no truthy role at all, or the nearest one is
   * not one of the three names.
   */
  lemma HighlightColorFallback(h: Tree, n: nat)
    requires WellFormed(h) && n < |h.nodes|
    ensures HighlightColor(h, n) == NoRoleColor <==> Palette(NearestRole(h, n)).None?
    ensures Palette(NearestRole(h, n)).Some? ==> HighlightColor(h, n) == Palette(NearestRole(h, n)).value
  {
  }
}
