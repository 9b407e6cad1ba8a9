/**
 * The post service (`PostServiceImpl`): converts between the entity and the transfer object
 * and turns the repository's calls into the five CRUD operations, raising the not-found error
 * when an id lookup matches no row. Thrown exceptions are returned as `Failure`/`Fail` values.
 */
module Service {
  import opened Wrappers
  import opened Entity
  import opened Payload
  import opened Exceptions
  import opened Repository

  /** What a service call can throw: the not-found error, or the database's refusal of a save. */
  datatype ServiceError = NotFound(notFound: ResourceNotFound) | SaveFailed(saveError: SaveError)

  /** The entity and the transfer object have the same title, description and content. */
  predicate SameText(post: Post, postDto: PostDto) {
    post.title == postDto.title && post.description == postDto.description && post.content == postDto.content
  }

  /**
   * `mapTOEntity`: a new, unsaved entity carrying the DTO's title, description and content.
   * The id is never set, so an id the client supplied is ignored.
   */
  function MapToEntity(postDto: PostDto): (post: Post)
    ensures post.id == None
    ensures SameText(post, postDto)
  {
    Post(None, postDto.title, postDto.description, postDto.content)
  }

  /**
   * `mapToDTO`: all four fields of a saved entity. Mapping the DTO back to an entity recovers
   * the entity apart from its id.
   */
  function MapToDto(post: Post): (postDto: PostDto)
    requires post.id.Some?
    ensures post.id == Some(postDto.id)
    ensures SameText(post, postDto)
    ensures MapToEntity(postDto) == post.(id := None)
  {
    PostDto(post.id.value, post.title, post.description, post.content)
  }

  /** The entity built from a DTO and then saved under `id` maps back to the DTO with that id. */
  lemma SavedEntityMapsBack(postDto: PostDto, id: int)
    ensures MapToDto(MapToEntity(postDto).(id := Some(id))) == postDto.(id := id)
  {
  }

  /** The stream `map(post -> mapToDTO(post))` over a list of saved entities. */
  function MapToDtos(posts: seq<Post>): (dtos: seq<PostDto>)
    requires forall i | 0 <= i < |posts| :: posts[i].id.Some?
    ensures |dtos| == |posts|
    ensures forall i | 0 <= i < |posts| :: dtos[i] == MapToDto(posts[i])
  {
    if posts == [] then [] else [MapToDto(posts[0])] + MapToDtos(posts[1..])
  }

  class PostServiceImpl {
    const postRepository: PostRepository

    ghost predicate Valid()
      reads this, postRepository
    {
      postRepository.Valid()
    }

    /** The repository is passed in by the caller (constructor injection). */
    constructor (postRepository: PostRepository)
      ensures this.postRepository == postRepository
    {
      this.postRepository := postRepository;
    }

    /**
     * `createPost`: saves the DTO's text under a fresh id and returns it with that id. Exactly
     * one row is added and no other row changes. The save fails, and nothing changes, when
     * another post already has the title.
     */
    method CreatePost(postDto: PostDto) returns (r: Result<PostDto, ServiceError>)
      requires Valid()
      modifies postRepository
      ensures Valid()
      ensures r.Success? <==> !TitleTaken(old(postRepository.rows), postDto.title)
      ensures r.Failure? ==>
        r.error == SaveFailed(DuplicateTitle(postDto.title)) && unchanged(postRepository)
      ensures r.Success? ==>
        var id := r.value.id;
        && r.value == postDto.(id := id)
        && 1 <= id && id !in old(postRepository.rows)
        && id == old(postRepository.nextId)
        && postRepository.rows == old(postRepository.rows)[id := MapToEntity(postDto).(id := Some(id))]
        && |postRepository.rows| == |old(postRepository.rows)| + 1
        && postRepository.order == old(postRepository.order) + [id]
        && postRepository.nextId == id + 1
    {
      var post := MapToEntity(postDto);
      var saved := postRepository.Save(post);
      match saved
      case Failure(e) =>
        r := Failure(SaveFailed(e));
      case Success(newPost) =>
        r := Success(MapToDto(newPost));
    }

    /**
     * `getAllPosts`: every stored post as a DTO, each exactly once, in the order `findAll`
     * lists the rows.
     */
    function GetAllPosts(): (dtos: seq<PostDto>)
      reads this, postRepository
      requires Valid()
      ensures |dtos| == |postRepository.rows| == |postRepository.FindAll()|
      ensures forall i | 0 <= i < |dtos| :: dtos[i] == MapToDto(postRepository.FindAll()[i])
      ensures forall i | 0 <= i < |dtos| ::
        dtos[i].id in postRepository.rows && dtos[i] == MapToDto(postRepository.rows[dtos[i].id])
      ensures forall id | id in postRepository.rows :: MapToDto(postRepository.rows[id]) in dtos
      ensures forall i, j | 0 <= i < j < |dtos| :: dtos[i].id != dtos[j].id
    {
      var posts := postRepository.FindAll();
      var dtos := MapToDtos(posts);
      assert forall id | id in postRepository.rows :: MapToDto(postRepository.rows[id]) in dtos by {
        forall id | id in postRepository.rows ensures MapToDto(postRepository.rows[id]) in dtos {
          var i :| 0 <= i < |posts| && posts[i] == postRepository.rows[id];
          assert dtos[i] == MapToDto(posts[i]);
        }
      }
      dtos
    }

    /**
     * `getPostById`: the stored post as a DTO, or NotFound("Post", "id", id) when no row has
     * that id.
     */
    function GetPostById(id: int): (r: Result<PostDto, ServiceError>)
      reads this, postRepository
      requires Valid()
      ensures r.Success? <==> id in postRepository.rows
      ensures r.Success? ==> r.value.id == id && r.value == MapToDto(postRepository.rows[id])
      ensures r.Failure? ==> r.error == NotFound(PostNotFound(id))
    {
      match postRepository.FindById(id)
      case Some(post) => Success(MapToDto(post))
      case None => Failure(NotFound(PostNotFound(id)))
    }

    /**
     * `updatePost`: overwrites the title, description and content of the post stored under
     * `id` with the DTO's, keeping the row's id whatever id the DTO carries, and returns the
     * updated post. Every other row is left as it was. A missing id fails with NotFound and a
     * title used by another post fails the save; either way nothing changes.
     */
    method UpdatePost(postDto: PostDto, id: int) returns (r: Result<PostDto, ServiceError>)
      requires Valid()
      modifies postRepository
      ensures Valid()
      ensures id !in old(postRepository.rows) ==>
        r == Failure(NotFound(PostNotFound(id))) && unchanged(postRepository)
      ensures id in old(postRepository.rows) && TitleTaken(old(postRepository.rows) - {id}, postDto.title) ==>
        r == Failure(SaveFailed(DuplicateTitle(postDto.title))) && unchanged(postRepository)
      ensures id in old(postRepository.rows) && !TitleTaken(old(postRepository.rows) - {id}, postDto.title) ==>
        var updated := old(postRepository.rows)[id].(title := postDto.title,
                                                     description := postDto.description,
                                                     content := postDto.content);
        && updated.id == Some(id)
        && r == Success(postDto.(id := id))
        && postRepository.rows == old(postRepository.rows)[id := updated]
        && (forall k | k in old(postRepository.rows) && k != id ::
              k in postRepository.rows && postRepository.rows[k] == old(postRepository.rows)[k])
        && postRepository.order == old(postRepository.order)
        && postRepository.nextId == old(postRepository.nextId)
    {
      var found := postRepository.FindById(id);
      if found.None? {
        return Failure(NotFound(PostNotFound(id)));
      }
      var post := found.value;
      post := post.(title := postDto.title);
      post := post.(description := postDto.description);
      post := post.(content := postDto.content);
      var saved := postRepository.Save(post);
      match saved
      case Failure(e) =>
        r := Failure(SaveFailed(e));
      case Success(updatedPost) =>
        r := Success(MapToDto(updatedPost));
    }

    /**
     * `deletePostById`: removes the post stored under `id` and no other; a missing id fails
     * with NotFound and changes nothing.
     */
    method DeletePostById(id: int) returns (r: Outcome<ServiceError>)
      requires Valid()
      modifies postRepository
      ensures Valid()
      ensures r.Pass? <==> id in old(postRepository.rows)
      ensures r.Fail? ==> r.error == NotFound(PostNotFound(id)) && unchanged(postRepository)
      ensures r.Pass? ==>
        && postRepository.rows == old(postRepository.rows) - {id}
        && |postRepository.rows| == |old(postRepository.rows)| - 1
        && postRepository.order == Without(old(postRepository.order), id)
        && postRepository.nextId == old(postRepository.nextId)
    {
      var found := postRepository.FindById(id);
      if found.None? {
        return Fail(NotFound(PostNotFound(id)));
      }
      postRepository.Delete(found.value);
      r := Pass;
    }

    /** A post just created is found under the id it was given, with the same fields. */
    method CreateThenGet(postDto: PostDto) returns (created: Result<PostDto, ServiceError>,
                                                     fetched: Result<PostDto, ServiceError>)
      requires Valid()
      modifies postRepository
      ensures Valid()
      ensures created.Success? ==> fetched == created
    {
      created := CreatePost(postDto);
      if created.Success? {
        fetched := GetPostById(created.value.id);
      } else {
        fetched := created;
      }
    }

    /** After an update succeeds, fetching the post returns the updated post. */
    method UpdateThenGet(postDto: PostDto, id: int) returns (updated: Result<PostDto, ServiceError>,
                                                             fetched: Result<PostDto, ServiceError>)
      requires Valid()
      modifies postRepository
      ensures Valid()
      ensures updated.Success? ==> fetched == updated
      ensures id !in old(postRepository.rows) ==> updated == fetched == Failure(NotFound(PostNotFound(id)))
    {
      updated := UpdatePost(postDto, id);
      fetched := GetPostById(id);
    }

    /**
     * After a delete, fetching the post fails with NotFound and deleting it again fails with
     * the same NotFound.
     */
    method DeleteTwice(id: int) returns (first: Outcome<ServiceError>,
                                        fetched: Result<PostDto, ServiceError>,
                                        second: Outcome<ServiceError>)
      requires Valid()
      modifies postRepository
      ensures Valid()
      ensures first.Pass? <==> id in old(postRepository.rows)
      ensures fetched == Failure(NotFound(PostNotFound(id)))
      ensures second == Fail(NotFound(PostNotFound(id)))
      ensures postRepository.rows == old(postRepository.rows) - {id}
    {
      first := DeletePostById(id);
      fetched := GetPostById(id);
      second := DeletePostById(id);
    }
  }

  /**
   * The service's request sequence on an empty table: create "A", a second create with the
   * same title, fetch, list, update to "B", delete, fetch again.
   */
  method Scenario() returns (created: Result<PostDto, ServiceError>,
                             duplicate: Result<PostDto, ServiceError>,
                             fetched: Result<PostDto, ServiceError>,
                             listed: seq<PostDto>,
                             updated: Result<PostDto, ServiceError>,
                             deleted: Outcome<ServiceError>,
                             gone: Result<PostDto, ServiceError>)
    ensures created == Success(PostDto(1, "A", "d", "c"))
    ensures duplicate == Failure(SaveFailed(DuplicateTitle("A")))
    ensures fetched == created
    ensures listed == [PostDto(1, "A", "d", "c")]
    ensures updated == Success(PostDto(1, "B", "d2", "c2"))
    ensures deleted == Pass
    ensures gone == Failure(NotFound(PostNotFound(1)))
  {
    var repository := new PostRepository();
    var service := new PostServiceImpl(repository);
    created := service.CreatePost(PostDto(0, "A", "d", "c"));
    assert repository.rows[1].title == "A";
    duplicate := service.CreatePost(PostDto(0, "A", "d", "c"));
    fetched := service.GetPostById(1);
    listed := service.GetAllPosts();
    updated := service.UpdatePost(PostDto(1, "B", "d2", "c2"), 1);
    deleted := service.DeletePostById(1);
    gone := service.GetPostById(1);
  }
}
