/**
 * The not-found error of the blog service (`ResourceNotFoundException`): the name of the
 * resource that was looked up, the field it was looked up by and the value that matched nothing.
 * The three getters of the Java class are the datatype's destructors; a datatype value never
 * changes, as the Java fields are assigned once in the constructor and have no setters.
 */
module Exceptions {
  import opened Wrappers
  import opened Decimal

  datatype ResourceNotFound = ResourceNotFound(resourceName: string, fieldName: string, fieldValue: int)
  {
    /**
     * The detail message the constructor passes to `RuntimeException`: the format
     * "%s not found with %s : '%s'" applied to the three fields, the value in decimal.
     * The value can be read back from between the quotes.
     */
    function Message(): (m: string)
      ensures |m| == |resourceName| + |fieldName| + |IntToString(fieldValue)| + 21
      ensures m[..|resourceName|] == resourceName && m[|m| - 1] == '\''
      ensures m[|resourceName|..|resourceName| + 16] == " not found with "
      ensures m[|resourceName| + 16..|resourceName| + 16 + |fieldName|] == fieldName
      ensures m[|resourceName| + 16 + |fieldName|..|resourceName| + |fieldName| + 20] == " : '"
      ensures ParseDecimal(m[|resourceName| + |fieldName| + 20..|m| - 1]) == Some(fieldValue)
    {
      var m := resourceName + " not found with " + fieldName + " : '" + IntToString(fieldValue) + "'";
      assert m[|resourceName| + |fieldName| + 20..|m| - 1] == IntToString(fieldValue);
      IntToStringRoundTrip(fieldValue);
      m
    }
  }

  /** The error every id lookup of the post service raises: resource "Post", field "id". */
  function PostNotFound(id: int): (e: ResourceNotFound)
    ensures e.resourceName == "Post" && e.fieldName == "id" && e.fieldValue == id
    ensures e.Message() == "Post not found with id : '" + IntToString(id) + "'"
  {
    var e := ResourceNotFound("Post", "id", id);
    assert "Post" + " not found with " + "id" + " : '" == "Post not found with id : '";
    e
  }

  /** Errors about the same resource and field with the same message looked up the same value. */
  lemma MessageDeterminesValue(e1: ResourceNotFound, e2: ResourceNotFound)
    requires e1.resourceName == e2.resourceName && e1.fieldName == e2.fieldName
    ensures e1.Message() == e2.Message() <==> e1 == e2
  {
  }

  /** The message for post 1, the example given beside the constructor (with the quotes it omits). */
  lemma PostOneMessage()
    ensures PostNotFound(1).Message() == "Post not found with id : '1'"
  {
  }
}
