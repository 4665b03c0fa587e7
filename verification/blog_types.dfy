/** The value records shared by the store and the pages: a user, the
    author projection embedded in a post, and a post itself. JavaScript
    numbers used as identifiers are modelled as mathematical integers. */
module BlogTypes {

  /** A signed-in account. */
  datatype User = User(id: int, username: string, email: string)

  /** The denormalised (id, username) copy of a user embedded in a post. */
  datatype Author = Author(id: int, username: string)

  /** A post as the remote API returns it; the store treats it as a value. */
  datatype Post = Post(
    id: int,
    title: string,
    content: string,
    author: Author,
    createdAt: string,
    updatedAt: string,
    tags: seq<string>,
    category: string)

  /** The author projection of a user: the email is dropped. */
  function AuthorOf(u: User): Author {
    Author(u.id, u.username)
  }
}
