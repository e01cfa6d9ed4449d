/** The post service: create, read one, read all, update and delete posts in the post
    table, and the field copies between the stored post and its transfer objects. */
module PostService {
  import opened Platform

  /** A moment as the entity stores it (`LocalDateTime`). */
  type DateTime = int

  /** The stored post; the id is assigned by the store when the post is first saved. */
  datatype Post = Post(
    id: Option<nat>, title: string, content: string, author: string,
    createdDate: Option<DateTime>, updatedDate: Option<DateTime>, viewCount: int)

  datatype RequestDTO = RequestDTO(title: string, content: string, author: string)

  datatype ResponseDTO = ResponseDTO(
    id: Option<nat>, title: string, content: string, author: string,
    createdDate: Option<DateTime>, updatedDate: Option<DateTime>, viewCount: int)

  /** The table as `findAll` lists it. */
  type PostTable = seq<Post>

  /** Every stored post has an id, and no two share one. */
  predicate IdsAssigned(posts: PostTable) {
    && (forall i :: 0 <= i < |posts| ==> posts[i].id.Some?)
    && (forall i, j :: 0 <= i < j < |posts| ==> posts[i].id != posts[j].id)
  }

  predicate IdUnused(posts: PostTable, id: nat) {
    forall i :: 0 <= i < |posts| ==> posts[i].id != Some(id)
  }

  /** `toDTO`: all seven fields, unchanged. Feeding the response's title, content and
      author back through `toEntity` gives the post with the store-managed fields
      (id, dates, view count) reset. */
  function ToDTO(post: Post): (r: ResponseDTO)
    ensures ToEntity(RequestDTO(r.title, r.content, r.author))
         == post.(id := None, createdDate := None, updatedDate := None, viewCount := 0)
  {
    ResponseDTO(post.id, post.title, post.content, post.author, post.createdDate, post.updatedDate, post.viewCount)
  }

  /** `toEntity`: title, content and author only; id and dates stay null and the view
      count at the default of an `int` field. The request can be read back from the
      new entity. */
  function ToEntity(dto: RequestDTO): (r: Post)
    ensures r.id.None? && r.createdDate.None? && r.updatedDate.None? && r.viewCount == 0
    ensures RequestDTO(r.title, r.content, r.author) == dto
  {
    Post(None, dto.title, dto.content, dto.author, None, None, 0)
  }

  /** `toDTO` copies all seven fields unchanged. */
  lemma ToDTOCopiesAll(p: Post)
    ensures ToDTO(p) == ResponseDTO(p.id, p.title, p.content, p.author, p.createdDate, p.updatedDate, p.viewCount)
  {
  }

  /** No field is lost in `toDTO`: distinct posts have distinct transfer objects. */
  lemma ToDTOInjective(p: Post, q: Post)
    requires ToDTO(p) == ToDTO(q)
    ensures p == q
  {
  }

  /** `toEntity` keeps the request's three fields and nothing else of it; what it leaves
      unset is the same for every request. */
  lemma ToEntityCopiesRequest(dto: RequestDTO, other: RequestDTO)
    ensures var p := ToEntity(dto);
      p.title == dto.title && p.content == dto.content && p.author == dto.author
    ensures ToEntity(dto).(title := other.title, content := other.content, author := other.author) == ToEntity(other)
  {
  }

  /** The position of the post with that id, if there is one (`findById`). */
  function IndexOf(posts: PostTable, id: nat): (r: Option<nat>)
    ensures r.Some? ==> r.value < |posts| && posts[r.value].id == Some(id)
    ensures r.None? <==> IdUnused(posts, id)
  {
    if posts == [] then None
    else if posts[0].id == Some(id) then Some(0)
    else
      match IndexOf(posts[1..], id)
      case None =>
        assert forall i :: 1 <= i < |posts| ==> posts[i] == posts[1..][i - 1];
        None
      case Some(k) => Some(k + 1)
  }

  /** The post with that id overwritten with the request's title, content and author. */
  function Updated(post: Post, dto: RequestDTO): Post {
    post.(title := dto.title, content := dto.content, author := dto.author)
  }

  /** An update changes title, content and author as requested and keeps id, dates and
      view count. */
  lemma UpdatedKeepsOtherFields(post: Post, dto: RequestDTO)
    ensures var u := Updated(post, dto);
      && ToDTO(u) == ResponseDTO(post.id, dto.title, dto.content, dto.author, post.createdDate, post.updatedDate, post.viewCount)
  {
  }

  /** `deleteById`: the table without the post of that id; an absent id deletes nothing. */
  function RemoveId(posts: PostTable, id: nat): (r: PostTable)
    ensures |r| <= |posts|
    ensures forall p :: p in r <==> p in posts && p.id != Some(id)
  {
    if posts == [] then []
    else if posts[0].id == Some(id) then RemoveId(posts[1..], id)
    else [posts[0]] + RemoveId(posts[1..], id)
  }

  /** Deleting an absent id changes nothing. */
  lemma {:induction false} RemoveAbsentId(posts: PostTable, id: nat)
    requires IdUnused(posts, id)
    ensures RemoveId(posts, id) == posts
  {
    if posts != [] {
      assert IdUnused(posts[1..], id) by {
        forall i | 0 <= i < |posts[1..]| ensures posts[1..][i].id != Some(id) {
          assert posts[1..][i] == posts[i + 1];
        }
      }
      RemoveAbsentId(posts[1..], id);
      assert posts == [posts[0]] + posts[1..];
    }
  }

  /** The first post's id is not the id of any later post. */
  lemma HeadIdDistinct(posts: PostTable, q: Post)
    requires IdsAssigned(posts) && posts != []
    requires q in posts[1..]
    ensures q.id != posts[0].id
  {
    var m :| 0 <= m < |posts[1..]| && posts[1..][m] == q;
    assert posts[m + 1] == q;
  }

  /** Deleting leaves no post with the deleted id. */
  lemma RemoveIdRemovesAll(posts: PostTable, id: nat)
    ensures IdUnused(RemoveId(posts, id), id)
  {
    var r := RemoveId(posts, id);
    forall i | 0 <= i < |r| ensures r[i].id != Some(id) {
      assert r[i] in r;
    }
  }

  /** Putting a post with a fresh id in front of a table keeps ids present and distinct. */
  lemma ConsKeepsIds(head: Post, rest: PostTable)
    requires IdsAssigned(rest) && head.id.Some?
    requires forall j :: 0 <= j < |rest| ==> rest[j].id != head.id
    ensures IdsAssigned([head] + rest)
  {
    var r := [head] + rest;
    assert r[1..] == rest;
    forall i, j | 0 <= i < j < |r| ensures r[i].id != r[j].id {
      assert r[j] == rest[j - 1];
      if i > 0 { assert r[i] == rest[i - 1]; }
    }
    forall i | 0 <= i < |r| ensures r[i].id.Some? {
      if i > 0 { assert r[i] == rest[i - 1]; }
    }
  }

  /** Deleting keeps the ids of the remaining posts present and distinct. */
  lemma {:induction false} RemoveIdKeepsIds(posts: PostTable, id: nat)
    requires IdsAssigned(posts)
    ensures IdsAssigned(RemoveId(posts, id))
  {
    if posts != [] {
      var tail := posts[1..];
      assert IdsAssigned(tail) by {
        forall i, j | 0 <= i < j < |tail| ensures tail[i].id != tail[j].id {
          assert tail[i] == posts[i + 1] && tail[j] == posts[j + 1];
        }
      }
      RemoveIdKeepsIds(tail, id);
      var rest := RemoveId(tail, id);
      if posts[0].id != Some(id) {
        assert RemoveId(posts, id) == [posts[0]] + rest;
        forall j | 0 <= j < |rest| ensures rest[j].id != posts[0].id {
          assert rest[j] in rest;
          HeadIdDistinct(posts, rest[j]);
        }
        ConsKeepsIds(posts[0], rest);
      }
    }
  }

  /** `PostService` over the post table. */
  class PostService {
    var posts: PostTable

    ghost predicate Valid()
      reads this
    {
      IdsAssigned(posts)
    }

    constructor (posts: PostTable)
      requires IdsAssigned(posts)
      ensures Valid() && this.posts == posts
    {
      this.posts := posts;
    }

    /** `create`; `id` is the id the store assigns to the saved post. */
    method Create(dto: RequestDTO, id: nat) returns (r: ResponseDTO)
      requires Valid()
      requires IdUnused(posts, id)
      modifies this
      ensures Valid()
      ensures posts == old(posts) + [ToEntity(dto).(id := Some(id))]
      ensures r == ResponseDTO(Some(id), dto.title, dto.content, dto.author, None, None, 0)
    {
      var post := ToEntity(dto);
      var createPost := post.(id := Some(id));
      posts := posts + [createPost];
      r := ToDTO(createPost);
    }

    /** `read`: null for an absent id, the transfer object of the post otherwise; ids
        are distinct, so that post is the only one with the id. */
    method Read(id: nat) returns (r: Option<ResponseDTO>)
      requires Valid()
      ensures r.None? <==> IdUnused(posts, id)
      ensures r.Some? ==> exists i :: 0 <= i < |posts| && posts[i].id == Some(id) && r.value == ToDTO(posts[i])
      ensures r.Some? ==> forall i :: 0 <= i < |posts| && posts[i].id == Some(id) ==> r.value == ToDTO(posts[i])
    {
      var readPost := IndexOf(posts, id);
      if readPost.None? {
        return None;
      }
      r := Some(ToDTO(posts[readPost.value]));
    }

    /** `readAll`: the transfer objects of all posts, in the order the table lists them. */
    method ReadAll() returns (result: seq<ResponseDTO>)
      ensures |result| == |posts|
      ensures forall i :: 0 <= i < |posts| ==> result[i] == ToDTO(posts[i])
    {
      result := [];
      for k := 0 to |posts|
        invariant |result| == k
        invariant forall i :: 0 <= i < k ==> result[i] == ToDTO(posts[i])
      {
        var dto := ToDTO(posts[k]);
        result := result + [dto];
      }
    }

    /** `update`: for an absent id `findById(...).orElse(null)` is dereferenced and a
        NullPointerException is thrown before anything is saved. */
    method Update(id: nat, dto: RequestDTO) returns (r: Outcome<ResponseDTO>)
      requires Valid()
      modifies this
      ensures Valid()
      ensures IdUnused(old(posts), id) ==> r == Thrown(Exception(NullPointer, None)) && posts == old(posts)
      ensures !IdUnused(old(posts), id) ==>
        var k := IndexOf(old(posts), id).value;
        && posts == old(posts)[k := Updated(old(posts)[k], dto)]
        && r == Normal(ToDTO(Updated(old(posts)[k], dto)))
    {
      var found := IndexOf(posts, id);
      if found.None? {
        return Thrown(Exception(NullPointer, None));
      }
      var k := found.value;
      var post := Updated(posts[k], dto);
      posts := posts[k := post];
      r := Normal(ToDTO(post));
    }

    /** `delete` */
    method Delete(id: nat)
      requires Valid()
      modifies this
      ensures Valid()
      ensures posts == RemoveId(old(posts), id)
      ensures IdUnused(posts, id)
    {
      RemoveIdKeepsIds(posts, id);
      RemoveIdRemovesAll(posts, id);
      posts := RemoveId(posts, id);
    }
  }
}
