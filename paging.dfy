/**
 * Pagination of a listing, as the handlers use it through `get_page`.
 *
 * The slicing itself is done by Django's `Paginator.get_page`, which is not
 * part of this repository. `GetPage` states the behaviour Django documents for
 * it, and the rest of the model takes that behaviour as an assumption:
 *   - page k holds items (k-1)*10 up to, not including, min(k*10, n);
 *   - a missing or non-integer page number selects page 1;
 *   - an integer outside 1..NumPages selects the last page;
 *   - an empty listing still has one (empty) page.
 */
module Paging {

  /**
   * Page size of every listing (`DISPLAYED_POSTS`). The arithmetic below
   * writes it as the literal 10, which keeps the solver's arithmetic linear.
   */
  const DisplayedPosts: nat := 10

  /** The `page` query parameter after Django has tried to read it as an integer. */
  datatype PageArg =
    | Absent            // no `page` parameter
    | NotInteger        // a value that `int()` rejects
    | Number(n: int)    // any integer, in range or not

  /** A page object: the items of one page and its position among all pages. */
  datatype Page<T> = Page(items: seq<T>, number: nat, numPages: nat) {

    predicate HasNext() {
      number < numPages
    }

    predicate HasPrevious() {
      number > 1
    }
  }

  function Min(a: int, b: int): int {
    if a <= b then a else b
  }

  /** Number of pages of a listing of `count` items: ceil(count / 10), and 1 when empty. */
  function NumPages(count: nat): (n: nat)
    ensures 1 <= n
    ensures count <= n * 10
    ensures count == 0 || (n - 1) * 10 < count
    ensures count == 0 ==> n == 1
  {
    if count <= 10 then 1 else 1 + NumPages(count - 10)
  }

  /**
   * The page number `get_page` settles on: a requested integer in range is
   * kept, any other integer (below 1 or past the end) gives the last page,
   * and a missing or non-integer argument gives page 1.
   */
  function PageNumber(arg: PageArg, count: nat): (k: nat)
    ensures 1 <= k <= NumPages(count)
    ensures arg.Number? && 1 <= arg.n <= NumPages(count) ==> k == arg.n
    ensures arg.Number? && !(1 <= arg.n <= NumPages(count)) ==> k == NumPages(count)
    ensures !arg.Number? ==> k == 1
  {
    match arg
    case Number(n) => if 1 <= n <= NumPages(count) then n else NumPages(count)
    case _ => 1
  }

  /**
   * `Paginator(s, DisplayedPosts).get_page(arg)`: page k of `s` is the slice
   * from (k-1)*10 up to min(k*10, |s|), so at most ten items.
   */
  function GetPage<T>(arg: PageArg, s: seq<T>): (p: Page<T>)
    ensures p.numPages == NumPages(|s|)
    ensures p.number == PageNumber(arg, |s|)
    ensures (p.number - 1) * 10 <= |s|
    ensures p.items == s[(p.number - 1) * 10 .. Min(p.number * 10, |s|)]
    ensures |p.items| <= DisplayedPosts
  {
    var k := PageNumber(arg, |s|);
    Page(s[(k - 1) * 10 .. Min(k * 10, |s|)], k, NumPages(|s|))
  }

  /** Page 1, whether asked for by number or by default, is the first ten items in listing order. */
  lemma FirstPageIsPrefix<T>(arg: PageArg, s: seq<T>)
    requires arg == Absent || arg == NotInteger || arg == Number(1)
    ensures GetPage(arg, s).number == 1
    ensures GetPage(arg, s).items == s[..Min(10, |s|)]
  {
  }

  /** Item k of a page is item (number-1)*10 + k of the listing. */
  lemma PageItemAt<T>(arg: PageArg, s: seq<T>, k: nat)
    requires k < |GetPage(arg, s).items|
    ensures (GetPage(arg, s).number - 1) * 10 + k < |s|
    ensures GetPage(arg, s).items[k] == s[(GetPage(arg, s).number - 1) * 10 + k]
  {
    var p := GetPage(arg, s);
    var lo := (p.number - 1) * 10;
    var hi := Min(p.number * 10, |s|);
    assert p.items == s[lo..hi];
    assert lo + k < hi;
  }

  /** Every item of a page is an item of the listing. */
  lemma PageItemsInListing<T(!new)>(arg: PageArg, s: seq<T>)
    ensures forall x :: x in GetPage(arg, s).items ==> x in s
  {
    var items := GetPage(arg, s).items;
    forall x | x in items
      ensures x in s
    {
      var k :| 0 <= k < |items| && items[k] == x;
      PageItemAt(arg, s, k);
    }
  }

  /** The first item of a non-empty listing opens page 1. */
  lemma FirstPageHead<T>(s: seq<T>)
    requires s != []
    ensures |GetPage(Absent, s).items| > 0
    ensures GetPage(Absent, s).items[0] == s[0]
  {
    var p := GetPage(Absent, s);
    assert p.number == 1;
    assert p.items == s[0..Min(10, |s|)];
  }

  /** Every page before the last is full; the last holds the remainder. */
  lemma PageSizes<T>(arg: PageArg, s: seq<T>)
    ensures var p := GetPage(arg, s);
      (p.HasNext() ==> |p.items| == DisplayedPosts) &&
      (!p.HasNext() ==> |p.items| == |s| - (p.numPages - 1) * 10)
  {
  }

  /** Concatenation of pages k, k+1, ..., NumPages of `s`. */
  function PagesFrom<T>(s: seq<T>, k: nat): seq<T>
    requires 1 <= k
    decreases NumPages(|s|) + 1 - k
  {
    if k > NumPages(|s|) then [] else GetPage(Number(k), s).items + PagesFrom(s, k + 1)
  }

  /** Page k followed by the pages after it. */
  lemma PagesFromStep<T>(s: seq<T>, k: nat)
    requires 1 <= k <= NumPages(|s|)
    ensures (k - 1) * 10 <= |s|
    ensures PagesFrom(s, k) == s[(k - 1) * 10 .. Min(k * 10, |s|)] + PagesFrom(s, k + 1)
  {
    assert PageNumber(Number(k), |s|) == k;
  }

  /** Pages k.. together are exactly the listing from item (k-1)*10 on. */
  lemma {:induction false} PagesFromIsSuffix<T>(s: seq<T>, k: nat)
    requires 1 <= k
    ensures PagesFrom(s, k) == s[Min((k - 1) * 10, |s|)..]
    decreases NumPages(|s|) + 1 - k
  {
    if k > NumPages(|s|) {
      assert |s| <= (k - 1) * 10;
    } else {
      PagesFromStep(s, k);
      PagesFromIsSuffix(s, k + 1);
      var lo := (k - 1) * 10;
      var hi := Min(k * 10, |s|);
      assert s[lo..hi] + s[hi..] == s[lo..];
    }
  }

  /** The pages of a listing, read in order, are the listing itself: nothing lost, nothing repeated. */
  lemma PagesCoverListing<T>(s: seq<T>)
    ensures PagesFrom(s, 1) == s
  {
    PagesFromIsSuffix(s, 1);
  }
}
