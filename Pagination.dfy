/** Page arithmetic of the table: the page count, the window of records a page shows,
    the step back from an empty trailing page, the clamp of a navigation target and the
    strip of pagination controls with its enable/disable rule. */
module Pagination {

  /** `itemsPerPage` */
  const PageSize: nat := 5

  function Max(a: int, b: int): int { if a < b then b else a }

  function Min(a: int, b: int): int { if a < b then a else b }

  // ---------------------------------------------------------------------------
  // Page count and page window

  /** `Math.ceil(m / itemsPerPage)`: the fewest pages of `PageSize` rows that hold `m` rows. */
  function TotalPages(m: nat): (n: nat)
    ensures n * PageSize >= m
    ensures n > 0 ==> (n - 1) * PageSize < m
  {
    (m + PageSize - 1) / PageSize
  }

  lemma TotalPagesZero(m: nat)
    ensures TotalPages(m) == 0 <==> m == 0
  {
  }

  /** `s.slice((p - 1) * itemsPerPage, (p - 1) * itemsPerPage + itemsPerPage)`; a slice
      bound beyond the end is cut back to the length, as `slice` does. */
  function PageWindow<T>(s: seq<T>, p: int): (w: seq<T>)
    requires p >= 1
    ensures |w| <= PageSize
    ensures |w| > 0 <==> p <= TotalPages(|s|)
    ensures |w| == Min(PageSize, Max(0, |s| - (p - 1) * PageSize))
    ensures forall k :: 0 <= k < |w| ==> w[k] == s[(p - 1) * PageSize + k]
  {
    var start := Min((p - 1) * PageSize, |s|);
    var end := Min((p - 1) * PageSize + PageSize, |s|);
    s[start..end]
  }

  /** Pages 1 to `n`, one after another. */
  function Pages<T>(s: seq<T>, n: nat): seq<T>
  {
    if n == 0 then [] else Pages(s, n - 1) + PageWindow(s, n)
  }

  lemma {:induction false} PagesPrefix<T>(s: seq<T>, n: nat)
    ensures Pages(s, n) == s[..Min(n * PageSize, |s|)]
  {
    if n > 0 {
      PagesPrefix(s, n - 1);
      var a, b := Min((n - 1) * PageSize, |s|), Min(n * PageSize, |s|);
      assert PageWindow(s, n) == s[a..b];
      assert s[..a] + s[a..b] == s[..b];
    }
  }

  /** Read one after another, the pages show every row exactly once, in order. */
  lemma PagesCoverAll<T>(s: seq<T>)
    ensures Pages(s, TotalPages(|s|)) == s
  {
    PagesPrefix(s, TotalPages(|s|));
  }

  // ---------------------------------------------------------------------------
  // Step back from an empty page

  /** The page a render lands on when asked for page `cp` of `m` rows: while the asked page
      is empty but pages exist, the render steps back one page and renders again. */
  function SettledPage(cp: int, m: nat): (r: int)
    requires cp >= 1
    ensures r >= 1
    ensures r == if TotalPages(m) > 0 && cp > TotalPages(m) then TotalPages(m) else cp
    decreases cp
  {
    // the window of page `cp` starts past the last row, that is, the page is empty
    if (cp - 1) * PageSize >= m && TotalPages(m) > 0 then SettledPage(Max(1, cp - 1), m) else cp
  }

  /** After the settle, a listing with rows shows a page that has rows. */
  lemma SettledPageShowsRows<T>(s: seq<T>, cp: int)
    requires cp >= 1 && |s| > 0
    ensures 1 <= SettledPage(cp, |s|) <= TotalPages(|s|)
    ensures |PageWindow(s, SettledPage(cp, |s|))| > 0
  {
  }

  /** Deleting the only row of the last page moves the view back one page. */
  lemma LastRowDeletedStepsBack(cp: int)
    requires cp >= 2
    ensures SettledPage(cp, (cp - 1) * PageSize) == cp - 1
  {
  }

  /** Rows deleted between two renders: settling on the larger listing and then on the
      smaller one, while rows remain, lands where settling once on the smaller one does. */
  lemma SettledTwice(cp: int, m: nat, m': nat)
    requires cp >= 1 && 0 < m' <= m
    ensures SettledPage(SettledPage(cp, m), m') == SettledPage(cp, m')
  {
    assert TotalPages(m') <= TotalPages(m);
  }

  // ---------------------------------------------------------------------------
  // Navigation

  /** `Math.max(1, Math.min(p, totalPages))` */
  function Clamp(p: int, tp: int): (r: int)
    ensures r >= 1
    ensures tp >= 1 ==> r <= tp
    ensures 1 <= p <= tp ==> r == p
    ensures p < 1 || tp < 1 ==> r == 1
    ensures 1 <= tp < p ==> r == tp
  {
    Max(1, Min(p, tp))
  }

  /** A clamped target is already settled: navigation never needs the step back. */
  lemma ClampIsSettled(p: int, m: nat)
    ensures SettledPage(Clamp(p, TotalPages(m)), m) == Clamp(p, TotalPages(m))
  {
  }

  /** The pagination controls. */
  datatype Control = First | Previous | PageNumber(n: int) | Next | Last

  /** A control as rendered: which one it is and whether it is disabled. */
  datatype Button = Button(control: Control, disabled: bool)

  /** The number of controls in the strip: none for a single page (or none), otherwise
      First, Previous, one button per page, Next and Last. */
  function StripLength(tp: int): (n: nat)
    ensures n == 0 <==> tp <= 1
    ensures n > 0 ==> n - 4 == tp
  {
    if tp <= 1 then 0 else tp + 4
  }

  /** The control at position `k` of the strip of `tp` pages: First, Previous, the pages
      1 to `tp` in order, Next, Last. */
  function StripAt(k: int, tp: int): (c: Control)
    ensures 0 <= k < StripLength(tp) && c.PageNumber? ==> 1 <= c.n <= tp && c == PageNumber(k - 1)
    ensures 0 <= k < StripLength(tp) && !c.PageNumber? ==> k < 2 || k >= StripLength(tp) - 2
  {
    if k == 0 then First
    else if k == 1 then Previous
    else if k <= tp + 1 then PageNumber(k - 1)
    else if k == tp + 2 then Next
    else Last
  }

  /** First and Previous are disabled on page 1, Next and Last on the last page, all other
      controls are enabled. */
  predicate IsDisabled(c: Control, cp: int, tp: int): (b: bool)
    ensures b ==> !c.PageNumber?
    ensures 1 < cp < tp ==> !b
  {
    match c
    case First | Previous => cp == 1
    case Next | Last => cp == tp
    case PageNumber(_) => false
  }

  /** The page a control asks for when clicked on page `cp` of `tp`. */
  function Target(c: Control, cp: int, tp: int): (p: int)
    ensures 1 <= cp <= tp && !IsDisabled(c, cp, tp) && !c.PageNumber? ==> 1 <= p <= tp && p != cp
    ensures c.PageNumber? ==> p == c.n
  {
    match c
    case First => 1
    case Previous => cp - 1
    case PageNumber(n) => n
    case Next => cp + 1
    case Last => tp
  }

  /** The rendered strip: every control of the strip, in order, each disabled by the rule. */
  ghost predicate StripShown(buttons: seq<Button>, cp: int, tp: int)
  {
    |buttons| == StripLength(tp)
    && forall k :: 0 <= k < |buttons| ==>
         buttons[k] == Button(StripAt(k, tp), IsDisabled(StripAt(k, tp), cp, tp))
  }

  /** On a page in range, every enabled control of the strip asks for a page in range, so
      the clamp leaves its target as it is; the enabled First/Previous/Next/Last controls
      move to a different page. */
  lemma EnabledControlsStayInRange(cp: int, tp: int, k: int)
    requires 1 <= cp <= tp && 0 <= k < StripLength(tp)
    requires !IsDisabled(StripAt(k, tp), cp, tp)
    ensures 1 <= Target(StripAt(k, tp), cp, tp) <= tp
    ensures Clamp(Target(StripAt(k, tp), cp, tp), tp) == Target(StripAt(k, tp), cp, tp)
    ensures !StripAt(k, tp).PageNumber? ==> Target(StripAt(k, tp), cp, tp) != cp
  {
  }

  /** Twelve rows: three pages. From page 1, Last shows rows 11 and 12; from there,
      Previous shows rows 6 to 10. */
  lemma TwelveRows<T>(s: seq<T>)
    requires |s| == 12
    ensures TotalPages(|s|) == 3
    ensures PageWindow(s, 1) == s[0..5]
    ensures Target(Last, 1, TotalPages(|s|)) == 3 && PageWindow(s, Target(Last, 1, TotalPages(|s|))) == s[10..12]
    ensures Target(Previous, 3, TotalPages(|s|)) == 2 && PageWindow(s, Target(Previous, 3, TotalPages(|s|))) == s[5..10]
  {
  }
}
