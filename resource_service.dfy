// The resource service (internal/service/resource_ser.go): argument checks
// in front of the resource repository, the author lookup, and the
// conversion of rows into list items.
module ResourceService {
  import opened Results
  import opened Text
  import Clock
  import ResourceRepo
  import UserRepo

  const MaxTitleLength := 100
  const MaxPageSize := 50

  /** `dto.ResourceItem`: the publish time becomes "YYYY-MM-DD HH:MM:SS". */
  datatype ResourceItem = ResourceItem(
    id: nat, title: string, textContent: string, codeContent: string, author: string,
    publishTime: string, userId: nat, likeCount: nat, viewCount: nat, commentCount: nat)

  datatype ServiceError =
    | ZeroUserId                                       // "用户ID不能为空（userID=0）"
    | BlankTitle                                       // "资源标题不能为空"
    | TitleTooLong(length: nat)                        // "资源标题长度不能超过100字符"
    | UserLookupFailed(lookup: UserRepo.UserRepoError) // "查询用户失败"
    | BlankUsername                                    // "用户...的用户名不能为空"
    | BadPage(page: int)                               // "页码必须≥1"
    | BadSize(size: int)                               // "每页条数必须在1~50之间"
    | ListFailed(cause: ResourceRepo.RepoError)        // "查询资源列表失败"
    | ZeroResourceId                                   // "资源ID必须为正整数" / "资源ID无效"
    | BlankComment                                     // "评论内容不能为空"

  /** `convertModelToDTO`: every field copied, the time formatted so that it
      reads back as the same date-time. */
  function ConvertModelToDTO(res: ResourceRepo.Resource): (d: ResourceItem)
    requires Clock.Valid(res.publishTime)
    ensures d.id == res.id && d.userId == res.userId && d.title == res.title
    ensures d.textContent == res.textContent && d.codeContent == res.codeContent && d.author == res.author
    ensures d.likeCount == res.likeCount && d.viewCount == res.viewCount && d.commentCount == res.commentCount
    ensures |d.publishTime| == 19 && Clock.Parse(d.publishTime) == Some(res.publishTime)
  {
    Clock.ParseFormat(res.publishTime);
    ResourceItem(res.id, res.title, res.textContent, res.codeContent, res.author,
                 Clock.Format(res.publishTime), res.userId, res.likeCount, res.viewCount, res.commentCount)
  }

  /** The title and owner checks of `CreateResource`, in their order; on
      success, the owner's username, which becomes the author. */
  function CheckCreate(users: UserRepo.UserStore, userId: nat, title: string): (r: Result<string, ServiceError>)
    requires users.Valid()
    reads users
    ensures r.Ok? <==> (
      && userId != 0
      && 1 <= |TrimSpace(title)| <= MaxTitleLength
      && userId in users.rows
      && TrimSpace(users.rows[userId].username) != "")
    ensures r.Ok? ==> r.value == users.rows[userId].username
    ensures userId == 0 ==> r == Err(ZeroUserId)
    ensures userId != 0 && TrimSpace(title) == "" ==> r == Err(BlankTitle)
    ensures userId != 0 && |TrimSpace(title)| > MaxTitleLength ==> r == Err(TitleTooLong(|TrimSpace(title)|))
    ensures userId != 0 && 1 <= |TrimSpace(title)| <= MaxTitleLength && userId !in users.rows ==>
      r == Err(UserLookupFailed(UserRepo.UserIdMissing))
    ensures (userId != 0 && 1 <= |TrimSpace(title)| <= MaxTitleLength && userId in users.rows
             && TrimSpace(users.rows[userId].username) == "") ==> r == Err(BlankUsername)
  {
    var t := TrimSpace(title);
    if userId == 0 then Err(ZeroUserId)
    else if t == "" then Err(BlankTitle)
    else if |t| > MaxTitleLength then Err(TitleTooLong(|t|))
    else match users.GetUserById(userId)
      case Err(e) => Err(UserLookupFailed(e))
      case Ok(user) => if TrimSpace(user.username) == "" then Err(BlankUsername) else Ok(user.username)
  }

  /** The `model.Resource` that `CreateResource` builds for the insert. */
  function Draft(userId: nat, title: string, text: string, code: string, author: string, now: Clock.DateTime): ResourceRepo.Resource {
    ResourceRepo.Resource(0, userId, TrimSpace(title), TrimSpace(text), code, author, now, 0, 0, 0)
  }

  /** The inserted row holds the trimmed title and text, the code as given,
      the author passed in, `now` as publish time and zero counters, and
      reads back as the draft under its new id. */
  lemma DraftStored(userId: nat, title: string, text: string, code: string, author: string, now: Clock.DateTime, id: nat)
    ensures var row := ResourceRepo.Stored(Draft(userId, title, text, code, author, now), id);
      && row.id == id && row.userId == userId
      && row.title == TrimSpace(title)
      && row.textContent == Some(TrimSpace(text)) && row.codeContent == Some(code)
      && row.author == author && row.publishTime == now
      && row.likeCount == 0 && row.viewCount == 0 && row.commentCount == 0
      && ResourceRepo.Scan(row) == Draft(userId, title, text, code, author, now).(id := id)
  {
    ResourceRepo.ScanStored(Draft(userId, title, text, code, author, now), id);
  }

  /** `CreateResource`: on success exactly one row is added under the next
      id, built from the checked title, the owner's username and `now`; on
      failure nothing is inserted. */
  method CreateResource(store: ResourceRepo.ResourceStore, users: UserRepo.UserStore,
                        userId: nat, title: string, text: string, code: string, now: Clock.DateTime)
    returns (err: Option<ServiceError>)
    requires store.Valid() && users.Valid() && Clock.Valid(now)
    modifies store
    ensures store.Valid()
    ensures var check := old(CheckCreate(users, userId, title));
      if check.Err? then err == Some(check.error) && store.rows == old(store.rows) && store.nextId == old(store.nextId)
      else && err.None?
           && store.nextId == old(store.nextId) + 1
           && store.rows == old(store.rows)[old(store.nextId) :=
                ResourceRepo.Stored(Draft(userId, title, text, code, check.value, now), old(store.nextId))]
  {
    var check := CheckCreate(users, userId, title);
    if check.Err? {
      return Some(check.error);
    }
    var res := Draft(userId, title, text, code, check.value, now);
    ghost var before := store.rows;
    ghost var id := store.nextId;
    store.CreateResource(res);
    assert store.rows == before[id := ResourceRepo.Stored(res, id)];
    err := None;
  }

  /** Converts the rows one by one, as the append loop does. */
  method ConvertAll(models: seq<ResourceRepo.Resource>) returns (items: seq<ResourceItem>)
    requires forall i :: 0 <= i < |models| ==> Clock.Valid(models[i].publishTime)
    ensures |items| == |models|
    ensures forall i :: 0 <= i < |models| ==> items[i] == ConvertModelToDTO(models[i])
  {
    items := [];
    var k := 0;
    while k < |models|
      invariant 0 <= k <= |models| && |items| == k
      invariant forall i :: 0 <= i < k ==> items[i] == ConvertModelToDTO(models[i])
    {
      items := items + [ConvertModelToDTO(models[k])];
      k := k + 1;
    }
  }

  const Int64Modulus := 0x1_0000_0000_0000_0000
  const Int64Max := 0x7FFF_FFFF_FFFF_FFFF

  /** Go's `int` (64 bits) arithmetic: `x` wrapped into two's complement. */
  function Wrap64(x: int): (r: int)
    ensures -Int64Max - 1 <= r <= Int64Max
    ensures (x - r) % Int64Modulus == 0
    ensures -Int64Max - 1 <= x <= Int64Max ==> r == x
  {
    var m := x % Int64Modulus;
    if m > Int64Max then m - Int64Modulus else m
  }

  /** `offset := (page - 1) * size`, computed in Go's 64-bit `int`. */
  function Offset(page: int, size: int): (r: int)
    ensures -Int64Max - 1 <= r <= Int64Max
    ensures 0 <= (page - 1) * size <= Int64Max ==> r == (page - 1) * size
  {
    Wrap64((page - 1) * size)
  }

  /** Huge page numbers wrap: page 2^62+1 of 4 items starts at row 0, and
      page 2^61+1 of 5 items has a negative offset. */
  lemma OffsetWraps()
    ensures Offset(0x4000_0000_0000_0001, 4) == 0
    ensures Offset(0x2000_0000_0000_0001, 5) < 0
  {
  }

  /** The rows `LIMIT offset, size` selects for the keyword. */
  function Page(store: ResourceRepo.ResourceStore, offset: nat, size: nat, kw: string): seq<ResourceRepo.Row>
    reads store
  {
    ResourceRepo.Window(ResourceRepo.Query(store.rows, store.nextId, kw), offset, size)
  }

  /** `GetResourceList`: checks the page and size, counts the matches, and
      unless there are none asks the repository for the page at the 64-bit
      offset `(page-1)*size`; a wrapped, negative offset makes the
      repository, and so the call, fail. On success the page's items come
      newest first, at most `size`, with the number of all matches. */
  method GetResourceList(store: ResourceRepo.ResourceStore, page: int, size: int, kw: string)
    returns (r: Result<(seq<ResourceItem>, nat), ServiceError>)
    requires store.Valid()
    ensures page < 1 ==> r == Err(BadPage(page))
    ensures page >= 1 && (size < 1 || size > MaxPageSize) ==> r == Err(BadSize(size))
    ensures page >= 1 && 1 <= size <= MaxPageSize && store.CountResources(kw) > 0 && Offset(page, size) < 0 ==>
      r == Err(ListFailed(ResourceRepo.BadLimit))
    ensures r.Ok? <==> page >= 1 && 1 <= size <= MaxPageSize && (store.CountResources(kw) == 0 || Offset(page, size) >= 0)
    ensures r.Ok? ==> r.value.1 == store.CountResources(kw)
    ensures r.Ok? && store.CountResources(kw) == 0 ==> r.value.0 == []
    ensures r.Ok? && Offset(page, size) >= 0 ==>
      && |r.value.0| == |Page(store, Offset(page, size), size, kw)| <= size
      && ResourceRepo.NewestFirst(Page(store, Offset(page, size), size, kw))
      && forall i :: 0 <= i < |r.value.0| ==>
           Clock.Valid(Page(store, Offset(page, size), size, kw)[i].publishTime) &&
           r.value.0[i] == ConvertModelToDTO(ResourceRepo.Scan(Page(store, Offset(page, size), size, kw)[i]))
  {
    if page < 1 {
      return Err(BadPage(page));
    }
    if size < 1 || size > MaxPageSize {
      return Err(BadSize(size));
    }
    var offset := Offset(page, size);
    var total := store.CountResources(kw);
    if total == 0 {
      if offset >= 0 {
        // no rows match, so every page is empty
        PageFacts(store, offset, size, kw);
      }
      return Ok(([], 0));
    }
    var listed := ListPage(store, offset, size, kw);
    if listed.Err? {
      return Err(ListFailed(listed.error));
    }
    PageFacts(store, offset, size, kw);
    r := Ok((listed.value, total));
  }

  /** The repository's page at `offset`, converted item by item; a negative
      offset is the repository's error. */
  method ListPage(store: ResourceRepo.ResourceStore, offset: int, size: nat, kw: string)
    returns (r: Result<seq<ResourceItem>, ResourceRepo.RepoError>)
    requires store.Valid()
    ensures r.Err? <==> offset < 0
    ensures r.Err? ==> r.error == ResourceRepo.BadLimit
    ensures r.Ok? ==> offset >= 0 && |r.value| == |Page(store, offset, size, kw)|
    ensures r.Ok? ==> forall i :: 0 <= i < |r.value| ==>
      Clock.Valid(Page(store, offset, size, kw)[i].publishTime) &&
      r.value[i] == ConvertModelToDTO(ResourceRepo.Scan(Page(store, offset, size, kw)[i]))
  {
    var models := store.GetResourceList(offset, size, kw);
    if models.Err? {
      return Err(models.error);
    }
    ghost var pg := Page(store, offset, size, kw);
    PageFacts(store, offset, size, kw);
    var scanned := models.value;
    assert |scanned| == |pg|;
    forall i | 0 <= i < |scanned|
      ensures scanned[i] == ResourceRepo.Scan(pg[i]) && Clock.Valid(scanned[i].publishTime)
    {
      assert pg[i].publishTime == ResourceRepo.Scan(pg[i]).publishTime;
    }
    var items := ConvertAll(scanned);
    r := Ok(items);
  }

  /** What the methods above need of a page: at most `size` rows, newest
      first, with valid publish times, and none when nothing matches. */
  lemma PageFacts(store: ResourceRepo.ResourceStore, offset: nat, size: nat, kw: string)
    requires store.Valid()
    ensures |Page(store, offset, size, kw)| <= size
    ensures ResourceRepo.NewestFirst(Page(store, offset, size, kw))
    ensures forall i :: 0 <= i < |Page(store, offset, size, kw)| ==> Clock.Valid(Page(store, offset, size, kw)[i].publishTime)
    ensures store.CountResources(kw) == 0 ==> Page(store, offset, size, kw) == []
  {
    var query := ResourceRepo.Query(store.rows, store.nextId, kw);
    store.CountIsQueryLength(kw);
    ResourceRepo.QuerySpec(store.rows, store.nextId, kw);
    ResourceRepo.QueryTimesValid(store.rows, store.nextId, kw);
    WindowTimesValid(query, offset, size);
    NewestFirstWindow(query, offset, size);
  }

  /** A window of rows with valid publish times has valid publish times. */
  lemma WindowTimesValid(s: seq<ResourceRepo.Row>, offset: nat, limit: nat)
    requires forall x :: x in s ==> Clock.Valid(x.publishTime)
    ensures forall i :: 0 <= i < |ResourceRepo.Window(s, offset, limit)| ==>
      Clock.Valid(ResourceRepo.Window(s, offset, limit)[i].publishTime)
  {
    var w := ResourceRepo.Window(s, offset, limit);
    forall i | 0 <= i < |w|
      ensures Clock.Valid(w[i].publishTime)
    {
      assert w[i] == s[offset + i];
    }
  }

  /** A page of a newest-first list is newest first. */
  lemma NewestFirstWindow(s: seq<ResourceRepo.Row>, offset: nat, limit: nat)
    requires ResourceRepo.NewestFirst(s)
    ensures ResourceRepo.NewestFirst(ResourceRepo.Window(s, offset, limit))
  {
    var w := ResourceRepo.Window(s, offset, limit);
    forall i, j | 0 <= i < j < |w|
      ensures !Clock.Before(w[i].publishTime, w[j].publishTime)
    {
      assert w[i] == s[offset + i] && w[j] == s[offset + j];
    }
  }

  /** `GetResourceByID`: id 0 is refused; an unknown id is "absent". */
  function GetResourceByID(store: ResourceRepo.ResourceStore, id: nat): (r: Result<Option<ResourceRepo.Resource>, ServiceError>)
    requires store.Valid()
    reads store
    ensures id == 0 ==> r == Err(ZeroResourceId)
    ensures r.Ok? <==> id != 0
    ensures r.Ok? ==> (r.value.None? <==> id !in store.rows)
    ensures r.Ok? && r.value.Some? ==> r.value.value == ResourceRepo.Scan(store.rows[id])
  {
    if id == 0 then Err(ZeroResourceId) else Ok(store.GetResourceByID(id))
  }

  /** `IncrViewCount`: no id check, straight to the repository. */
  method IncrViewCount(store: ResourceRepo.ResourceStore, id: nat)
    requires store.Valid()
    modifies store
    ensures store.Valid() && store.nextId == old(store.nextId)
    ensures store.rows == ResourceRepo.Incr(old(store.rows), id, ResourceRepo.Views)
  {
    store.IncrViewCount(id);
  }

  /** `IncrLikeCount`: id 0 is refused before the repository is called. */
  method IncrLikeCount(store: ResourceRepo.ResourceStore, id: nat) returns (err: Option<ServiceError>)
    requires store.Valid()
    modifies store
    ensures store.Valid() && store.nextId == old(store.nextId)
    ensures err.Some? <==> id == 0
    ensures err.Some? ==> err.value == ZeroResourceId && store.rows == old(store.rows)
    ensures err.None? ==> store.rows == ResourceRepo.Incr(old(store.rows), id, ResourceRepo.Likes)
  {
    if id == 0 {
      return Some(ZeroResourceId);
    }
    store.IncrLikeCount(id);
    err := None;
  }

  /** `CreateComment`: id 0 and blank content are refused; otherwise only
      the comment counter moves (the content itself is not stored). */
  method CreateComment(store: ResourceRepo.ResourceStore, id: nat, content: string) returns (err: Option<ServiceError>)
    requires store.Valid()
    modifies store
    ensures store.Valid() && store.nextId == old(store.nextId)
    ensures id == 0 ==> err == Some(ZeroResourceId)
    ensures id != 0 && IsBlank(content) ==> err == Some(BlankComment)
    ensures err.None? <==> id != 0 && !IsBlank(content)
    ensures err.Some? ==> store.rows == old(store.rows)
    ensures err.None? ==> store.rows == ResourceRepo.Incr(old(store.rows), id, ResourceRepo.Comments)
  {
    if id == 0 {
      return Some(ZeroResourceId);
    }
    TrimSpaceEmptyIff(content);
    if TrimSpace(content) == "" {
      return Some(BlankComment);
    }
    store.IncrCommentCount(id);
    err := None;
  }

  /** Since ids start at 1, the id check of `IncrLikeCount` only changes the
      answer, never the table: the repository alone would also leave it as
      it was for id 0. */
  lemma ZeroIdIsNoRow(store: ResourceRepo.ResourceStore)
    requires store.Valid()
    ensures ResourceRepo.Incr(store.rows, 0, ResourceRepo.Likes) == store.rows
    ensures ResourceRepo.Incr(store.rows, 0, ResourceRepo.Views) == store.rows
  {
  }
}
