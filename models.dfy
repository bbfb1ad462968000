/** The stored entities and the request/response shapes of the forum API. */
module Models {

  /** An unsigned 8-bit value, the element type of a C# `byte[]`. */
  type byte = x: int | 0 <= x < 256

  /** Ticks of 100 ns since 0001-01-01, the representation of a .NET `DateTime`. */
  const MaxTicks: int := 3_155_378_975_999_999_999
  type Ticks = t: int | 0 <= t <= MaxTicks

  /**
   * A registered user. The stored class has no Email property although the
   * token and the DTOs read one; the model adds it. The navigation list of
   * posts is not modelled.
   */
  datatype User = User(
    id: int,
    username: string,
    email: string,
    passwordHash: seq<byte>,
    passwordSalt: seq<byte>)

  /** A forum post; `userId` is the foreign key of its owner. */
  datatype Post = Post(
    id: int,
    title: string,
    text: string,
    createdAt: Ticks,
    userId: int)

  datatype CreatePostDto = CreatePostDto(title: string, text: string)

  /** Not part of the repository's sources; taken to carry Title and Text like CreatePostDto. */
  datatype UpdatePostDto = UpdatePostDto(title: string, text: string)

  datatype GetPostDto = GetPostDto(id: int, title: string, text: string, createdAt: Ticks, userId: int)

  datatype LoginUserDto = LoginUserDto(username: string, password: string)

  datatype RegisterUserDto = RegisterUserDto(username: string, password: string, email: string)

  datatype GetUserDto = GetUserDto(id: int, username: string, email: string)

  /** AutoMapper's Post -> GetPostDto map: copies the properties of the same name. */
  function ToGetPostDto(p: Post): GetPostDto
  {
    GetPostDto(p.id, p.title, p.text, p.createdAt, p.userId)
  }

  /** AutoMapper's User -> GetUserDto map: the password fields have no counterpart. */
  function ToGetUserDto(u: User): GetUserDto
  {
    GetUserDto(u.id, u.username, u.email)
  }

  /**
   * AutoMapper's RegisterUserDto -> User map: username and email are copied,
   * the password has no counterpart, the key and the password fields keep
   * their defaults (0 and no bytes) until the controller fills them in.
   */
  function FromRegisterUserDto(req: RegisterUserDto): User
  {
    User(0, req.username, req.email, [], [])
  }
}
