/** The two remote calls the tool makes, reduced to the values that cross the
    boundary. The network client itself is not modelled: each call is a
    function that the model receives as a parameter (an oracle), so every
    statement holds whatever the remote service answers. */
module SlackApi {

  type UserId = string
  type ChannelId = string

  /** An opaque continuation token; the empty string means "no more pages"
      in a response and "start from the beginning" in a request. */
  type Cursor = string

  /** The page size every membership request asks for (tests/main.go:18). */
  const PageLimit: int := 1000

  /** The fallback display name for a member whose lookup failed. */
  const UnknownName: string := "unknown"

  /** Either a value or the error the call reported. */
  datatype Result<T> = Ok(value: T) | Err(error: string)

  /** The parameters of one "list the members of a conversation" request. */
  datatype Request = Request(channel: ChannelId, cursor: Cursor, limit: int)

  /** One page of a membership listing and the cursor of the next page. */
  datatype Page = Page(ids: seq<UserId>, nextCursor: Cursor)

  /** The membership listing call: a request to a page, or an error. */
  type ListMembers = Request -> Result<Page>

  /** The user lookup call: an identifier to the user's name, or an error. */
  type GetUserName = UserId -> Result<string>
}
