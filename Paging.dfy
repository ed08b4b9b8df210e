/** The offset-to-page arithmetic every paginated ShareIt listing shares:
    `PageRequest.of(from > 0 ? from / size : 0, size)`, and the page it selects. */
module Paging {
  import opened Common
  import opened Sorting

  /** A Spring Data page request: page index and page length (at least one). */
  datatype PageRequest = PageRequest(page: nat, size: nat)

  /** The page index handed to PageRequest.of: `from > 0 ? from / size : 0`,
      the index of the page that holds offset `from`. */
  function PageIndex(from: int, size: int): (i: nat)
    requires size >= 1
    ensures from <= 0 ==> i == 0
    ensures from > 0 ==> i * size <= from < i * size + size
  {
    if from > 0 then
      assert from == (from / size) * size + from % size;
      from / size
    else 0
  }

  /** Builds the page request from the client's item offset `from` and page
      length `size`. A zero size with a positive offset fails in the division;
      any size below one is refused by PageRequest.of. The page is the one that
      holds offset `from`, so an offset that is not a multiple of `size` is
      rounded down to the start of its page. */
  function PageOf(from: int, size: int): (r: Result<PageRequest>)
    ensures r.Err? <==> size < 1
    ensures r.Err? ==> r.error == IllegalArgument
    ensures r.Ok? ==> r.value.size == size
    ensures r.Ok? && from <= 0 ==> r.value.page == 0
    ensures r.Ok? && from > 0 ==> r.value.page * size <= from < r.value.page * size + size
  {
    if size < 1 then Err(IllegalArgument)
    else Ok(PageRequest(PageIndex(from, size), size))
  }

  /** The first element of page `p`, or the length of `s` when the page lies
      past the end. */
  function PageStart(n: nat, p: PageRequest): (k: nat)
    ensures k <= n
  {
    if p.page * p.size <= n then p.page * p.size else n
  }

  /** The rows of page `p` of the ordered list `s`: the slice
      [page * size, page * size + size) cut to the list's length. */
  function Slice<T>(s: seq<T>, p: PageRequest): (r: seq<T>)
    ensures |r| <= p.size
    ensures p.page * p.size + p.size <= |s| ==> |r| == p.size
    ensures p.page * p.size < |s| < p.page * p.size + p.size ==> |r| == |s| - p.page * p.size
    ensures |s| <= p.page * p.size ==> r == []
    ensures forall k :: 0 <= k < |r| ==> p.page * p.size + k < |s| && r[k] == s[p.page * p.size + k]
  {
    var lo := PageStart(|s|, p);
    var hi := if lo + p.size <= |s| then lo + p.size else |s|;
    assert lo < |s| ==> lo == p.page * p.size;
    s[lo..hi]
  }

  /** A page of a sorted list is sorted the same way. */
  lemma SliceKeepsOrder<T>(s: seq<T>, p: PageRequest, key: T -> int, desc: bool)
    requires SortedBy(s, key, desc)
    ensures SortedBy(Slice(s, p), key, desc)
  {
    var r := Slice(s, p);
    forall i, j | 0 <= i < j < |r| ensures InOrder(key, desc, r[i], r[j]) {
      assert r[i] == s[p.page * p.size + i] && r[j] == s[p.page * p.size + j];
    }
  }

  /** Every row of a page is a row of the list. */
  lemma SliceMembers<T>(s: seq<T>, p: PageRequest)
    ensures forall x :: x in Slice(s, p) ==> x in s
  {
    var r := Slice(s, p);
    forall x | x in r ensures x in s {
      var k :| 0 <= k < |r| && r[k] == x;
      assert s[p.page * p.size + k] == x;
    }
  }

  /** When the offset is a multiple of the page length the page starts exactly
      at the offset. */
  lemma AlignedOffsetIsExact(from: int, size: int)
    requires from >= 0 && size >= 1 && from % size == 0
    ensures PageOf(from, size).Ok?
    ensures PageOf(from, size).value.page * size == from
  {
    if from > 0 {
      assert from == (from / size) * size + from % size;
    }
  }

  /** A page of length `size` taken at an offset that is not a multiple of
      `size` starts before the offset: the rows between the page start and the
      offset are returned again, e.g. from = 1, size = 2 gives the first page. */
  lemma UnalignedOffsetRepeatsRows(from: int, size: int)
    requires from > 0 && size >= 1 && from % size != 0
    ensures PageOf(from, size).Ok?
    ensures PageOf(from, size).value.page * size == from - from % size < from
  {
    assert from == (from / size) * size + from % size;
  }
}
