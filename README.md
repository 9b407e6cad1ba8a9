# Blog post service, modelled in Dafny

This project models the core of a small Spring Boot blog API: the post service
(`PostServiceImpl`) with its DTO↔entity mapping, and the not-found error it raises
(`ResourceNotFoundException`). The service runs over a stand-in for the persistence layer.
The stand-in is a class that holds a table from id to row, the fixed order in which
`findAll` lists the rows, and the identity column's counter.

- `wrappers.dfy` (`Wrappers`): `Option`, `Result` and `Outcome`. A thrown exception is a
  `Failure`/`Fail` value. A Java `Optional` or nullable id is an `Option`.
- `decimal.dfy` (`Decimal`): how `String.format("%s", long)` writes a `long` (as
  `Long.toString` does). `ParseDecimal` is an independent reader of decimal numerals and
  serves as its inverse.
- `resource_not_found_exception.dfy` (`Exceptions`): the exception as a datatype of its
  three fields, with the message its constructor builds. The getters `getResourceName`,
  `getFieldName` and `getFieldValue` are the datatype's destructors `resourceName`,
  `fieldName` and `fieldValue`. A datatype value cannot change after construction, just as
  the Java fields are assigned once and have no setters.
- `post.dfy` (`Entity`, `Payload`): the `Post` entity, whose id is `None` until it is
  saved, and the `PostDto` transfer object, whose id is a plain integer.
- `post_repository.dfy` (`Repository`): the stand-in for the Spring Data repository.
  `findById` and `findAll` are functions. `save` and `delete` are methods that change the
  table. The invariant covers the database's unique-title constraint, so a `save` that would
  duplicate a title fails.
- `post_service_impl.dfy` (`Service`): the mappings as functions, and `PostServiceImpl` as a
  class. The class holds the repository it is given. `createPost`, `updatePost` and
  `deletePostById` are methods that change the repository. `getAllPosts` and
  `getPostById` are functions that read it. Client methods show what callers can conclude
  from the contracts alone, for example that a second delete fails.

## Model

| member | source | states |
|---|---|---|
| `Decimal.NatToString` | src/main/java/com/springbootblog/exception/ResourceNotFoundException.java:29 | the decimal digits of a natural number: non-empty, only digits, a leading '0' exactly for zero |
| `Decimal.IntToString` | src/main/java/com/springbootblog/exception/ResourceNotFoundException.java:29 | the `%s` rendering of the `long` field value: a leading '-' exactly for negatives, then digits without a leading zero; zero is exactly "0" |
| `Decimal.NatToStringValue` | src/main/java/com/springbootblog/exception/ResourceNotFoundException.java:29 | reading back the digits of n gives n (by induction on n) |
| `Decimal.IntToStringRoundTrip` | src/main/java/com/springbootblog/exception/ResourceNotFoundException.java:29 | the decimal reader inverts the rendering on every integer |
| `Decimal.IntToStringInjective` | src/main/java/com/springbootblog/exception/ResourceNotFoundException.java:29 | two values have the same rendering if and only if they are equal |
| `Exceptions.ResourceNotFound.Message` | src/main/java/com/springbootblog/exception/ResourceNotFoundException.java:28-33 | the message is the resource name, " not found with ", the field name, " : '", the value, and a closing quote; the text between the quotes reads back as the field value |
| `Exceptions.PostNotFound` | src/main/java/com/springbootblog/service/impl/PostServiceImpl.java:108 | the error each id lookup of the service raises (also at lines 122 and 141) names resource "Post", field "id" and the id that was looked up, so its message is exactly `Post not found with id : '` followed by the id in decimal and a closing quote, for every id |
| `Exceptions.MessageDeterminesValue` | src/main/java/com/springbootblog/exception/ResourceNotFoundException.java:29 | for the same resource and field, two errors have the same message if and only if they carry the same value |
| `Exceptions.PostOneMessage` | src/main/java/com/springbootblog/exception/ResourceNotFoundException.java:29 | the error for post 1 reads exactly `Post not found with id : '1'` |
| `Repository.StoreKeepsTitlesUnique` | src/main/java/com/springbootblog/entity/Post.java:24 | the unique constraint on the title column: storing a post under an id in a table without duplicate titles keeps it so if and only if no other row has that title |
| `Repository.PostRepository.constructor` | src/main/java/com/springbootblog/repository/PostRepository.java:6 | an empty table whose identity counter starts at 1 satisfies the invariant |
| `Repository.PostRepository.FindById` | src/main/java/com/springbootblog/repository/PostRepository.java:6 | a row is found if and only if its id is stored, and the found entity carries that id |
| `Repository.PostRepository.FindAll` | src/main/java/com/springbootblog/repository/PostRepository.java:6 | every stored row exactly once: as many entries as rows, each entry the row stored under its own id, and every row present |
| `Repository.PostRepository.Save` | src/main/java/com/springbootblog/repository/PostRepository.java:6 | an entity without an id is inserted under a fresh positive id, and one with an id overwrites that row; both fail without change on a duplicate title; the invariant (ids below the counter, unique titles) is kept |
| `Repository.PostRepository.Delete` | src/main/java/com/springbootblog/repository/PostRepository.java:6 | removes exactly the row under the entity's id; an unsaved or already removed entity changes nothing |
| `Service.MapToEntity` | src/main/java/com/springbootblog/service/impl/PostServiceImpl.java:90-96 | the new entity has the DTO's title, description and content, and no id, whatever id the DTO had |
| `Service.MapToDto` | src/main/java/com/springbootblog/service/impl/PostServiceImpl.java:75-82 | the DTO carries the entity's id and text, and mapping it back gives the entity without its id |
| `Service.SavedEntityMapsBack` | src/main/java/com/springbootblog/service/impl/PostServiceImpl.java:75-96 | a DTO mapped to an entity, saved under an id and mapped back is the DTO with that id |
| `Service.MapToDtos` | src/main/java/com/springbootblog/service/impl/PostServiceImpl.java:66 | the stream map keeps length and order, and element i is the DTO of entity i |
| `Service.PostServiceImpl.constructor` | src/main/java/com/springbootblog/service/impl/PostServiceImpl.java:25-28 | the service uses the repository it is given |
| `Service.PostServiceImpl.CreatePost` | src/main/java/com/springbootblog/service/impl/PostServiceImpl.java:37-53 | succeeds if and only if no post has the title; then exactly one row is added, under a fresh id, holding the DTO's text, and the result is the input DTO with that id; otherwise nothing changes |
| `Service.PostServiceImpl.GetAllPosts` | src/main/java/com/springbootblog/service/impl/PostServiceImpl.java:62-67 | element i is the DTO of row i of `findAll`; every stored post appears exactly once; the table is only read |
| `Service.PostServiceImpl.GetPostById` | src/main/java/com/springbootblog/service/impl/PostServiceImpl.java:107-110 | succeeds if and only if the id is stored, with the DTO of that row; otherwise fails with NotFound("Post", "id", id); the table is only read |
| `Service.PostServiceImpl.UpdatePost` | src/main/java/com/springbootblog/service/impl/PostServiceImpl.java:121-131 | a missing id fails with NotFound and changes nothing; otherwise the row keeps its id, gets exactly the DTO's title, description and content, every other row stays as it was, and the result is the DTO with the row's id (a duplicate title fails without change) |
| `Service.PostServiceImpl.DeletePostById` | src/main/java/com/springbootblog/service/impl/PostServiceImpl.java:140-143 | succeeds if and only if the id is stored, and then removes exactly that row; a missing id fails with NotFound and changes nothing |
| `Service.PostServiceImpl.CreateThenGet` | src/main/java/com/springbootblog/service/impl/PostServiceImpl.java:37-110 | a post just created is fetched back unchanged under its new id |
| `Service.PostServiceImpl.UpdateThenGet` | src/main/java/com/springbootblog/service/impl/PostServiceImpl.java:107-131 | after a successful update, fetching the post returns the updated DTO; on a missing id both fail with NotFound |
| `Service.PostServiceImpl.DeleteTwice` | src/main/java/com/springbootblog/service/impl/PostServiceImpl.java:107-143 | after a delete, fetching the id fails with NotFound and a second delete fails with the same NotFound |
| `Service.Scenario` | src/main/java/com/springbootblog/service/impl/PostServiceImpl.java:37-143 | on an empty table: create "A" gets id 1, a second "A" is refused, fetch and list return it, update to "B" keeps id 1, delete succeeds, and fetching id 1 then fails with NotFound |

## Left out

- The HTTP controller (`PostController`): routing, the 201/200 status codes and the delete confirmation text only forward to the service. The `@ResponseStatus(NOT_FOUND)` mapping of the exception is also left out.
- Spring Data JPA internals: SQL, transactions and isolation. Identity generation is modelled only as a counter that gives a fresh id. A database that uses up an id on a failed insert is not modelled.
- Repository.PostRepository.Save: requires that an entity carrying an id names a stored row. The service only saves such entities. What JPA's `merge` does with an unknown id depends on the Hibernate version.
- Repository.PostRepository.FindAll: lists rows in insertion order, a fixed order chosen for the model. The database may return any order.
- Ids and the exception's field value are unbounded integers. The 64-bit range of Java's `long`, and overflow of the identity counter, are not modelled.
- Java nulls are not modelled: null strings in a DTO, a null boxed id passed to `getPostById`, and unboxing a null id in `mapToDTO`. Every string and id here is present. The not-null column constraints therefore cannot fail.
- `updatePost` sets the fetched entity's fields in place. The model builds the updated value and saves it. The table changes only through `save` in either case, so the model does not capture aliasing of the fetched entity object.
- Concurrent requests (last write wins on the same id) are outside this sequential code.
- Lombok-generated accessors, dependency injection and JSON (de)serialisation are framework code.
