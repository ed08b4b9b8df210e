/** The item-request service: creating a request, the paged list of other
    users' requests, the user's own requests, and one request by id. Both
    revisions of the service are the same code. */
module ItemRequestService {
  import opened Common
  import opened Domain
  import opened Paging
  import opened Sorting
  import opened Store

  /** A request as shown: the request with the items offered in answer to it
      (the items whose request id is the request's). */
  datatype RequestView = RequestView(request: ItemRequest, items: seq<Item>)

  function CreatedOf(r: ItemRequest): int
  {
    r.created
  }

  function View(items: seq<Item>, request: ItemRequest): (v: RequestView)
    ensures v.request == request
    ensures forall i :: i in v.items <==> i in items && i.requestId == Some(request.id)
  {
    RequestView(request, Filter(items, (i: Item) => i.requestId == Some(request.id)))
  }

  /** The request `create` saves: the user must exist; the request is stamped
      with the current time. */
  function CreateOutcome(users: map<int, User>, description: string, userId: int, newId: int, now: int)
    : (r: Result<ItemRequest>)
    ensures r.Ok? <==> userId in users
    ensures r.Err? ==> r.error == NotFound(UserEntity)
    ensures r.Ok? ==> r.value == ItemRequest(newId, description, userId, now)
  {
    if userId !in users then Err(NotFound(UserEntity))
    else Ok(ItemRequest(newId, description, userId, now))
  }

  /** `create`: stores the request under the next identity value; an unknown
      user stores nothing. */
  method Create(db: Database, description: string, userId: int, now: int) returns (r: Result<ItemRequest>)
    requires db.Valid()
    modifies db
    ensures db.Valid()
    ensures r == CreateOutcome(old(db.users), description, userId, |old(db.requests)| + 1, now)
    ensures db.requests == if r.Ok? then old(db.requests) + [r.value] else old(db.requests)
    ensures db.users == old(db.users) && db.lastUserId == old(db.lastUserId) && db.items == old(db.items)
    ensures db.bookings == old(db.bookings) && db.comments == old(db.comments)
  {
    if userId !in db.users {
      return Err(NotFound(UserEntity));
    }
    var request := ItemRequest(|db.requests| + 1, description, userId, now);
    db.requests := db.requests + [request];
    r := Ok(request);
  }

  /** findAllByRequesterIdNotOrderByCreatedDesc without the page: exactly the
      other users' requests, each once per row, newest first. */
  function OthersRequests(requests: seq<ItemRequest>, userId: int): (r: seq<ItemRequest>)
    ensures multiset(r) == multiset(Filter(requests, (q: ItemRequest) => q.requesterId != userId))
    ensures forall q :: q in r <==> q in requests && q.requesterId != userId
    ensures SortedBy(r, CreatedOf, true)
  {
    var others := Filter(requests, (q: ItemRequest) => q.requesterId != userId);
    var r := Sort(others, CreatedOf, true);
    assert forall q :: q in r <==> q in multiset(others);
    r
  }

  /** findAllByRequesterIdOrderByCreatedDesc: exactly the user's requests,
      newest first. */
  function OwnRequests(requests: seq<ItemRequest>, userId: int): (r: seq<ItemRequest>)
    ensures multiset(r) == multiset(Filter(requests, (q: ItemRequest) => q.requesterId == userId))
    ensures forall q :: q in r <==> q in requests && q.requesterId == userId
    ensures SortedBy(r, CreatedOf, true)
  {
    var own := Filter(requests, (q: ItemRequest) => q.requesterId == userId);
    var r := Sort(own, CreatedOf, true);
    assert forall q :: q in r <==> q in multiset(own);
    r
  }

  /** Each request of the table is either the user's own or another user's,
      never both. */
  lemma OwnAndOthersPartition(requests: seq<ItemRequest>, userId: int)
    ensures |OwnRequests(requests, userId)| + |OthersRequests(requests, userId)| == |requests|
    ensures forall q :: q in OwnRequests(requests, userId) ==> q !in OthersRequests(requests, userId)
  {
    var own := OwnRequests(requests, userId);
    var others := OthersRequests(requests, userId);
    assert multiset(own) + multiset(others) == multiset(requests) by {
      forall q ensures (multiset(own) + multiset(others))[q] == multiset(requests)[q] {
      }
    }
    assert |multiset(own) + multiset(others)| == |multiset(requests)|;
  }

  /** Views of each request in a list. */
  function Views(items: seq<Item>, requests: seq<ItemRequest>): (r: seq<RequestView>)
    ensures |r| == |requests|
    ensures forall k :: 0 <= k < |requests| ==> r[k] == View(items, requests[k])
  {
    if requests == [] then [] else [View(items, requests[0])] + Views(items, requests[1..])
  }

  /** getAll: the user must exist; then one page of the other users'
      requests, newest first. */
  function GetAll(users: map<int, User>, requests: seq<ItemRequest>, items: seq<Item>,
                  from: int, size: int, userId: int): (r: Result<seq<RequestView>>)
    ensures userId !in users ==> r == Err(NotFound(UserEntity))
    ensures userId in users ==> (r.Err? <==> size < 1)
    ensures r.Err? && userId in users ==> r.error == IllegalArgument
    ensures r.Ok? ==> |r.value| <= size
    ensures r.Ok? ==> forall v :: v in r.value ==> v.request in requests && v.request.requesterId != userId
    ensures r.Ok? ==> forall i, j :: 0 <= i < j < |r.value| ==> r.value[i].request.created >= r.value[j].request.created
    ensures r.Ok? ==> forall v :: v in r.value ==> v == View(items, v.request)
    ensures userId in users && size >= 1 ==>
              r == Ok(Views(items, Slice(OthersRequests(requests, userId), PageOf(from, size).value)))
  {
    if userId !in users then Err(NotFound(UserEntity))
    else match PageOf(from, size)
      case Err(e) => Err(e)
      case Ok(page) =>
        var all := OthersRequests(requests, userId);
        var rows := Slice(all, page);
        SliceMembers(all, page);
        SliceKeepsOrder(all, page, CreatedOf, true);
        ViewsOfSortedRows(items, rows);
        Ok(Views(items, rows))
  }

  /** The views of a newest-first list of requests show those requests, in
      the same order, each with its items. */
  lemma ViewsOfSortedRows(items: seq<Item>, rows: seq<ItemRequest>)
    requires SortedBy(rows, CreatedOf, true)
    ensures forall v :: v in Views(items, rows) ==> v.request in rows && v == View(items, v.request)
    ensures forall i, j :: 0 <= i < j < |rows| ==> Views(items, rows)[i].request.created >= Views(items, rows)[j].request.created
  {
    var views := Views(items, rows);
    forall v | v in views ensures v.request in rows && v == View(items, v.request) {
      var k :| 0 <= k < |views| && views[k] == v;
    }
    forall i, j | 0 <= i < j < |rows| ensures views[i].request.created >= views[j].request.created {
      assert InOrder(CreatedOf, true, rows[i], rows[j]);
    }
  }

  /** getAll is the page of the other users' requests, newest first, that
      holds offset `from`: its rows are those from page index
      (from > 0 ? from / size : 0) times size on, a full page when there are
      that many, each shown with the items offered for it. */
  lemma GetAllIsPageOfOthers(users: map<int, User>, requests: seq<ItemRequest>, items: seq<Item>,
                             from: int, size: int, userId: int)
    requires userId in users && size >= 1
    ensures GetAll(users, requests, items, from, size, userId).Ok?
    ensures var views := GetAll(users, requests, items, from, size, userId).value;
      var others := OthersRequests(requests, userId);
      var page := PageRequest(PageIndex(from, size), size);
      var first := page.page * page.size;
      && (first + size <= |others| ==> |views| == size)
      && (first < |others| < first + size ==> |views| == |others| - first)
      && forall k :: 0 <= k < |views| ==> first + k < |others| && views[k] == View(items, others[first + k])
  {
    GetAllIsViewsOfPage(users, requests, items, from, size, userId);
    ViewsOfPage(items, OthersRequests(requests, userId), PageRequest(PageIndex(from, size), size));
  }

  /** The page getAll shows is the one PageOf builds from the offset. */
  lemma GetAllIsViewsOfPage(users: map<int, User>, requests: seq<ItemRequest>, items: seq<Item>,
                            from: int, size: int, userId: int)
    requires userId in users && size >= 1
    ensures GetAll(users, requests, items, from, size, userId)
      == Ok(Views(items, Slice(OthersRequests(requests, userId), PageRequest(PageIndex(from, size), size))))
  {
  }

  /** The views of one page of a list show the rows from the page's first
      offset on, a full page when the list has that many. */
  lemma ViewsOfPage(items: seq<Item>, rows: seq<ItemRequest>, page: PageRequest)
    ensures var views := Views(items, Slice(rows, page));
      var first := page.page * page.size;
      && (first + page.size <= |rows| ==> |views| == page.size)
      && (first < |rows| < first + page.size ==> |views| == |rows| - first)
      && forall k :: 0 <= k < |views| ==> first + k < |rows| && views[k] == View(items, rows[first + k])
  {
    var slice := Slice(rows, page);
    var first := page.page * page.size;
    if slice != [] {
      assert slice[|slice| - 1] == rows[first + (|slice| - 1)];
      ViewsOfRun(items, rows, slice, first);
    }
  }

  /** The views of a run of consecutive rows starting at `first` show those
      rows in order. */
  lemma ViewsOfRun(items: seq<Item>, rows: seq<ItemRequest>, run: seq<ItemRequest>, first: nat)
    requires first + |run| <= |rows|
    requires forall k :: 0 <= k < |run| ==> run[k] == rows[first + k]
    ensures forall k :: 0 <= k < |run| ==> Views(items, run)[k] == View(items, rows[first + k])
  {
  }

  /** With offset 1 and page length 1 the list holds just the second newest
      request of the other users, when there is one. */
  lemma SecondPageOfOne(users: map<int, User>, requests: seq<ItemRequest>, items: seq<Item>, userId: int)
    requires userId in users
    ensures var others := OthersRequests(requests, userId);
      GetAll(users, requests, items, 1, 1, userId)
        == Ok(if |others| >= 2 then [View(items, others[1])] else [])
  {
    var others := OthersRequests(requests, userId);
    var page := PageOf(1, 1).value;
    assert page == PageRequest(1, 1);
    var rows := Slice(others, page);
    assert GetAll(users, requests, items, 1, 1, userId) == Ok(Views(items, rows));
    if |others| >= 2 {
      assert rows == [others[1]];
      assert Views(items, rows) == [View(items, others[1])];
    } else {
      assert |rows| == 0;
    }
  }

  /** getOwn: the user must exist; then all of the user's requests, newest
      first. */
  function GetOwn(users: map<int, User>, requests: seq<ItemRequest>, items: seq<Item>, userId: int)
    : (r: Result<seq<RequestView>>)
    ensures r.Ok? <==> userId in users
    ensures r.Err? ==> r.error == NotFound(UserEntity)
    ensures r.Ok? ==> |r.value| == |OwnRequests(requests, userId)|
    ensures r.Ok? ==> forall k :: 0 <= k < |r.value| ==> r.value[k] == View(items, OwnRequests(requests, userId)[k])
  {
    if userId !in users then Err(NotFound(UserEntity))
    else Ok(Views(items, OwnRequests(requests, userId)))
  }

  /** getById: the user is checked first, then the request. */
  function GetById(users: map<int, User>, requests: seq<ItemRequest>, items: seq<Item>,
                   requestId: int, userId: int): (r: Result<RequestView>)
    ensures userId !in users ==> r == Err(NotFound(UserEntity))
    ensures userId in users && Row(requests, requestId).None? ==> r == Err(NotFound(RequestEntity))
    ensures r.Ok? <==> userId in users && Row(requests, requestId).Some?
    ensures r.Ok? ==> r.value == View(items, requests[requestId - 1])
  {
    if userId !in users then Err(NotFound(UserEntity))
    else match Row(requests, requestId)
      case None => Err(NotFound(RequestEntity))
      case Some(request) => Ok(View(items, request))
  }

  /** Any user may read any request, including another user's. */
  lemma AnyUserReadsAnyRequest(users: map<int, User>, requests: seq<ItemRequest>, items: seq<Item>,
                               requestId: int, userId: int)
    requires RequestsNumbered(requests)
    requires userId in users && 1 <= requestId <= |requests|
    ensures GetById(users, requests, items, requestId, userId).Ok?
    ensures GetById(users, requests, items, requestId, userId).value.request.id == requestId
  {
  }
}
