/** Outcomes shared by the authentication gate and the blog handlers:
    an optional value, and a result that either carries a value or one of
    the failures the handlers answer with, each with its HTTP status code
    and the message the JSON body carries. */
module Results {

  datatype Option<+T> = None | Some(value: T)

  datatype Failure =
    | MissingTitleOrContent  // createBlog: title or content absent or empty
    | NoToken                // auth: no Authorization header, or an empty token
    | InvalidToken           // auth: the token verifier rejected the token
    | CannotEdit             // updateBlog: caller is not the author
    | CannotDelete           // deleteBlog: caller is not the author
    | BlogNotFound           // updateBlog, deleteBlog, toggleLike: unknown post id
    | ServerError            // a save that the schema validation rejects
  {
    /** The HTTP status code of the response: a client error for bad
        input, 401 exactly for the gate's refusals, 403 exactly for
        ownership refusals, and 500 only for a failed save. */
    function Status(): (code: nat)
      ensures 400 <= code <= 500
      ensures code == 401 <==> this.NoToken? || this.InvalidToken?
      ensures code == 403 <==> this.CannotEdit? || this.CannotDelete?
      ensures code == 500 <==> this.ServerError?
    {
      match this
      case MissingTitleOrContent => 400
      case NoToken => 401
      case InvalidToken => 401
      case CannotEdit => 403
      case CannotDelete => 403
      case BlogNotFound => 404
      case ServerError => 500
    }

    /** The `message` field of the response body. */
    function Message(): string
    {
      match this
      case MissingTitleOrContent => "Please provide title and content"
      case NoToken => "No authentication token, access denied"
      case InvalidToken => "Token is not valid"
      case CannotEdit => "You can only edit your own blogs"
      case CannotDelete => "You can only delete your own blogs"
      case BlogNotFound => "Blog not found"
      case ServerError => "Server error"
    }
  }

  datatype Result<+T> = Ok(value: T) | Err(failure: Failure)
}
