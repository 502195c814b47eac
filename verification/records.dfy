/**
 * The database as an abstract state: users, categories, document records and the
 * upload directory, each keyed by its identifier.
 */
module Records {
  import opened Http
  import opened Uploads

  predicate IsHexDigit(c: char)
  {
    '0' <= c <= '9' || 'a' <= c <= 'f'
  }

  /** The canonical text form of a UUID, as `str(uuid)` renders it: 8-4-4-4-12 lower-case hex digits. */
  predicate IsUuidText(s: string)
  {
    |s| == 36 && forall i :: 0 <= i < 36 ==> if i == 8 || i == 13 || i == 18 || i == 23 then s[i] == '-' else IsHexDigit(s[i])
  }

  type Uuid = s: string | IsUuidText(s) witness "00000000-0000-0000-0000-000000000000"

  /** A point in time, as the clock reads it. */
  type Timestamp = int

  datatype User = User(username: string, email: string, passwordHash: string)

  /** A category; it is soft-deleted once `deletedAt` is set. */
  datatype Category = Category(userId: Uuid, name: string, color: string, deletedAt: Option<Timestamp>)

  datatype Document = Document(
    userId: Uuid,
    categoryId: Option<Uuid>,
    originalFilename: string,
    filePath: string,
    fileSize: nat,
    mimeType: string,
    status: string)

  datatype Db = Db(
    users: map<Uuid, User>,
    categories: map<Uuid, Category>,
    documents: map<Uuid, Document>,
    files: map<string, seq<Byte>>)

  predicate Active(c: Category)
  {
    c.deletedAt.None?
  }

  /** No two users share an email address. */
  ghost predicate EmailsUnique(users: map<Uuid, User>)
  {
    forall a, b :: a in users && b in users && a != b ==> users[a].email != users[b].email
  }

  /** No two users share a username. */
  ghost predicate UsernamesUnique(users: map<Uuid, User>)
  {
    forall a, b :: a in users && b in users && a != b ==> users[a].username != users[b].username
  }

  /** No user has two categories that are both active and share a name. */
  ghost predicate ActiveNamesUnique(categories: map<Uuid, Category>)
  {
    forall a, b ::
      a in categories && b in categories && a != b
      && Active(categories[a]) && Active(categories[b])
      && categories[a].userId == categories[b].userId
      ==> categories[a].name != categories[b].name
  }
}
