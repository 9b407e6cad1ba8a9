/** The persisted blog post (`Post`, table "posts"). */
module Entity {
  import opened Wrappers

  /**
   * A row of the posts table. The id is absent until the store has saved the entity
   * and assigned it one (a null `Long` in the Java entity).
   */
  datatype Post = Post(id: Option<int>, title: string, description: string, content: string)
}

/** The transfer object exchanged at the API boundary (`PostDto`). */
module Payload {

  /** The same four fields as the entity; the id is a plain `long`, 0 when the client sends none. */
  datatype PostDto = PostDto(id: int, title: string, description: string, content: string)
}
