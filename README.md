# Forum API credentials and ownership, modelled in Dafny

This project models the credential and ownership logic of a small ASP.NET
forum backend (users and posts):

- **Password hashing** (`secure_password.dfy`, module `SecurePassword`):
  salt generation, salting and hashing, and the byte-by-byte verification
  loop with its early exit. SHA-512 is a parameter `sha` that returns 64
  bytes and is otherwise unknown. In the code, the salting step writes
  `password + salt` with `salt` a `byte[]`. C# turns the array into its type
  name `"System.Byte[]"`, so the hash is SHA-512 over the UTF-16LE bytes of
  `password + "System.Byte[]"`. The model keeps this. It proves that the salt
  never affects the hash, and that a stored hash verifies under any salt.
  Verification is modelled with a ghost counter of the comparisons made,
  which shows how the early exit leaks the position of the first mismatch.
  The loop is not constant-time: a comparison that always visits all 64
  bytes would remove this leak.
- **User id from the token** (`secure_token.dfy`, `number_parsing.dfy`):
  `GetUserId` parses the NameIdentifier claim as a .NET `Int32`
  (`NumberStyles.Integer`: surrounding white space, an optional sign,
  decimal digits). A grammar of that form is proved to accept exactly the
  strings the parser accepts, with the same value. It returns `-1` when the claim is missing or malformed or
  the value overflows. The module also models the three claims `CreateToken`
  puts in a token and its expiry, one day after issue. A round-trip lemma
  shows that every `Int32` written by `ToString` is read back.
- **Ownership gate on posts** (`controllers.dfy`, class
  `PostsController`): create, update and delete are transitions of a post
  table. The class methods are proved equal to these transitions. Lemmas
  show that any run of requests keeps every owner id non-negative, never
  reuses a key and never changes a post's owner. The existence check comes
  first, then the owner check; a mismatch returns 401.
- **User table** (`user_repository.dfy`, class `UserRepository`): the
  argument guards, lookups by username and email that ignore case, lookup by
  id, insert and delete. Each operation states how the table changes.
  `User` gains the `Email` property that the token and the DTOs read.
- **Registration** (`controllers.dfy`, class `UsersController`): a new user
  is stored with a fresh 32-byte salt and the hash of its password. The
  stored password then verifies. No check for an existing username or email
  is made, so two users may share a username. Login,
  update and delete of users are stubs that answer 200.

Supporting modules: `Wrappers` (Option, Result), `Search` (first-match search), `Http` (action results),
`Models` (entities, DTOs, AutoMapper maps) and `Text` (`Char.IsWhiteSpace`,
`string.IsNullOrWhiteSpace`, lower-casing, `Encoding.Unicode`).

## Model

| member | source | states |
|---|---|---|
| `SecurePassword.GenerateRandomSalt` | UserSecurity/SecurePassword.cs:9-16 | returns a newly allocated array of exactly 32 bytes |
| `SecurePassword.SaltAndHashPassword` | UserSecurity/SecurePassword.cs:21-29 | the digest is SHA-512 of the UTF-16LE salted string, and that string is the same whichever salt is passed |
| `SecurePassword.HashInputLayout` | UserSecurity/SecurePassword.cs:24-28 | the hashed bytes are the password's UTF-16LE bytes followed by those of `"System.Byte[]"` |
| `SecurePassword.SaltIrrelevant` | UserSecurity/SecurePassword.cs:21-29 | the hash is `sha(UTF-16LE(password + "System.Byte[]"))`, identical for every pair of salts |
| `SecurePassword.HashInputInjective` | UserSecurity/SecurePassword.cs:24-28 | two passwords made of Unicode scalar values give the same hash input bytes only if they are equal |
| `SecurePassword.CommonPrefix` | UserSecurity/SecurePassword.cs:40-48 | the index the loop stops at: every earlier byte pair matches, and the byte pair at the index differs when both exist |
| `SecurePassword.CompareHashes` | UserSecurity/SecurePassword.cs:39-51 | true iff the stored hash is at least as long and matches on every index of the new hash; an index error iff the stored hash is shorter and matches on every index it has; false iff some shared index differs |
| `SecurePassword.Comparisons` | UserSecurity/SecurePassword.cs:40-48 | the loop compares at most as many bytes as either hash holds |
| `SecurePassword.VerifyAcceptsDigestPrefix` | UserSecurity/SecurePassword.cs:34-51 | a stored hash is accepted iff it has at least 64 bytes and its first 64 are the recomputed digest |
| `SecurePassword.VerifyPasswordHash` | UserSecurity/SecurePassword.cs:34-52 | the loop returns `CompareHashes` of the recomputed hash and the stored hash. The ghost comparison count is the first-mismatch index plus one on rejection and 64 on success |
| `SecurePassword.VerifyRoundTrip` | UserSecurity/SecurePassword.cs:34-51 | a hash made from a password verifies that password with the same salt |
| `SecurePassword.VerifyIgnoresStoredSalt` | UserSecurity/SecurePassword.cs:34-37 | a hash made with one salt verifies against any other salt |
| `SecurePassword.WrongPasswordNeedsCollision` | UserSecurity/SecurePassword.cs:34-51 | for passwords of Unicode scalar values, a different password verifies only if SHA-512 maps two distinct inputs to the same digest |
| `SecurePassword.StoredHashTailIgnored` | UserSecurity/SecurePassword.cs:40-44 | bytes of the stored hash past the recomputed hash's length change neither the outcome nor the comparison count |
| `SecurePassword.TruncatedHashFaults` | UserSecurity/SecurePassword.cs:40-44 | a stored hash that is a proper prefix of the digest makes the loop index out of range |
| `SecurePassword.EarlyExitTiming` | UserSecurity/SecurePassword.cs:40-48 | two rejected hashes take equally many comparisons iff their matching prefixes are equally long |
| `Text.ToLower` | Repositories/UserRepository/UserRepository.cs:65 | lower-casing keeps the length and maps each character on its own |
| `Text.ToLowerIdempotent` | Repositories/UserRepository/UserRepository.cs:102 | lower-casing twice equals lower-casing once |
| `Text.ToLowerKeepsBlankness` | Repositories/UserRepository/UserRepository.cs:59 | a string is empty or blank iff its lower-cased form is |
| `Text.CharBytes` | UserSecurity/SecurePassword.cs:28 | one character encodes to 2 bytes, or to 4 (a surrogate pair) exactly when it lies above U+FFFF |
| `Text.Utf16Le` | UserSecurity/SecurePassword.cs:28 | the encoding has at least two bytes per character |
| `Text.CharBytesDecode` | UserSecurity/SecurePassword.cs:28 | an encoded character's first code unit gives its width, and its bytes decode back to it |
| `Text.Utf16LeAppend` | UserSecurity/SecurePassword.cs:24-28 | the encoding of a concatenation is the concatenation of the encodings |
| `Text.Utf16LeInjective` | UserSecurity/SecurePassword.cs:28 | distinct strings of Unicode scalar values have distinct UTF-16LE encodings |
| `NumberParsing.LeadingWhite` | UserSecurity/SecureToken.cs:65 | counts the leading white space exactly: all characters before it are white and the next one is not |
| `NumberParsing.TrailingWhite` | UserSecurity/SecureToken.cs:65 | counts the trailing white space exactly |
| `NumberParsing.ParseInteger` | UserSecurity/SecureToken.cs:65 | a string that parses contains only white space, signs and digits |
| `NumberParsing.ParseIntegerGrammar` | UserSecurity/SecureToken.cs:65 | a string parses to v iff it is white space, then an optional `+` or `-`, then one or more digits, then white space, and those digits under that sign have the value v |
| `NumberParsing.ParseIntegerExamples` | UserSecurity/SecureToken.cs:65 | `"1 2"` and `"+-1"` are refused, and `" +007 "` parses to 7 |
| `NumberParsing.Int32Parse` | UserSecurity/SecureToken.cs:64-67 | null gives an argument-null error; success iff the text is well formed and its value is within Int32, with that value; a format error iff the text is malformed |
| `NumberParsing.FormatNat` | UserSecurity/SecureToken.cs:30 | `ToString` of a natural number is a non-empty string of digits |
| `NumberParsing.FormatInt` | UserSecurity/SecureToken.cs:30 | `ToString` of an int is its digits, after a minus sign exactly when it is negative |
| `NumberParsing.DigitsValueOfFormat` | UserSecurity/SecureToken.cs:30 | the digits `ToString` writes have the value of the number |
| `NumberParsing.ParseFormatRoundTrip` | UserSecurity/SecureToken.cs:65 | parsing what `ToString` writes gives back the number, negative numbers included |
| `NumberParsing.SurroundingWhiteIgnored` | UserSecurity/SecureToken.cs:65 | white space before and after the text does not change what it parses to |
| `SecureToken.FindFirstValue` | UserSecurity/SecureToken.cs:65 | null iff no claim has the type; otherwise the value of the first claim that has it |
| `SecureToken.CreateToken` | UserSecurity/SecureToken.cs:26-56 | an error iff one day after issue passes the last representable instant; otherwise the descriptor carries the three profile claims, expires one day after issue and names HMAC-SHA512 |
| `SecureToken.TokenExpiry` | UserSecurity/SecureToken.cs:47 | the expiry is exactly 24 hours of ticks after issue, and an error iff that passes the last representable instant |
| `SecureToken.GetUserId` | UserSecurity/SecureToken.cs:62-73 | `-1` for a missing claim, a malformed claim or a value outside Int32; otherwise the value the claim denotes. The result is always an Int32 |
| `SecureToken.GetUserIdRoundTrip` | UserSecurity/SecureToken.cs:62-73 | every Int32 id written by `ToString` is read back as that id |
| `SecureToken.ForeignCharacterYieldsSentinel` | UserSecurity/SecureToken.cs:62-72 | a claim with any character other than white space, a sign or a digit yields `-1` |
| `SecureToken.IssuedTokenIdentifiesUser` | UserSecurity/SecureToken.cs:29-33 | the NameIdentifier claim of an issued token gives back the user's id through `GetUserId` |
| `SecureToken.TokenOmitsPasswordData` | UserSecurity/SecureToken.cs:29-49 | users who agree on id, username and email get the same token whatever their password hash and salt |
| `SecureToken.TokenClaimsShape` | UserSecurity/SecureToken.cs:29-33 | there are three claims, and NameIdentifier, Name and Email carry the decimal id, the username and the email |
| `Search.FirstIndex` | Repositories/UserRepository/UserRepository.cs:34 | the first-match search behind `FirstOrDefault` and `FindFirstValue`: the first index whose element satisfies the predicate, none iff no element does |
| `Repositories.FirstOrDefault` | Repositories/UserRepository/UserRepository.cs:34 | null iff no user satisfies the predicate; otherwise the first user in table order that does |
| `Repositories.FindById` | Repositories/UserRepository/UserRepository.cs:34 | null iff no user has the key; otherwise a stored user with that key |
| `Repositories.FindByUsername` | Repositories/UserRepository/UserRepository.cs:65 | null iff no username matches ignoring case; otherwise the first stored user whose username matches |
| `Search.FirstIndexAgrees` | Repositories/UserRepository/UserRepository.cs:65 | two searches whose predicates agree on every element find the same index |
| `Repositories.LoginAgreesWithUsernameExists` | Repositories/UserRepository/UserRepository.cs:56-103 | the login lookup finds a user iff the username exists, and the user it finds has that username ignoring case |
| `Repositories.UsernameLookupIgnoresCase` | Repositories/UserRepository/UserRepository.cs:94-103 | the username lookups and their guard give the same answer for a name and its lower-cased form |
| `Repositories.EmailLookupIgnoresCase` | Repositories/UserRepository/UserRepository.cs:106-114 | the email lookup and its guard give the same answer for an email and its lower-cased form |
| `Repositories.FindByIdFindsStored` | Repositories/UserRepository/UserRepository.cs:31-38 | with distinct keys, a lookup by a stored user's key returns that user |
| `Repositories.RemoveById` | Repositories/UserRepository/UserRepository.cs:88 | removal never lengthens the table |
| `Repositories.RemoveByIdMembers` | Repositories/UserRepository/UserRepository.cs:79-89 | the remaining users are exactly the stored users with a different key |
| `Repositories.RemoveAbsentId` | Repositories/UserRepository/UserRepository.cs:88 | removing a key no user has leaves the table unchanged |
| `Repositories.RemoveStoredId` | Repositories/UserRepository/UserRepository.cs:79-89 | removing a stored user's key removes exactly that user and keeps the others in order |
| `Repositories.RemovePreservesDistinct` | Repositories/UserRepository/UserRepository.cs:88 | removal keeps keys distinct |
| `Repositories.UserRepository.GetAllUsersAsync` | Repositories/UserRepository/UserRepository.cs:21-27 | returns the whole table in order |
| `Repositories.UserRepository.GetUserByIdAsync` | Repositories/UserRepository/UserRepository.cs:31-38 | returns the first user with the key; null iff no user has it |
| `Repositories.UserRepository.RegisterUserAsync` | Repositories/UserRepository/UserRepository.cs:42-52 | null throws and changes nothing; otherwise appends exactly that user under the next key |
| `Repositories.UserRepository.LoginUserAsync` | Repositories/UserRepository/UserRepository.cs:56-69 | throws iff the username is null, empty or white space; otherwise returns the first user whose username matches ignoring case, or null iff there is none |
| `Repositories.UserRepository.UpdateUser` | Repositories/UserRepository/UserRepository.cs:72-75 | changes nothing |
| `Repositories.UserRepository.DeleteUser` | Repositories/UserRepository/UserRepository.cs:79-89 | null throws and changes nothing; otherwise only the row with that user's key is removed |
| `Repositories.UserRepository.UsernameExistsAsync` | Repositories/UserRepository/UserRepository.cs:94-103 | throws iff the argument is blank; otherwise true iff some username equals it ignoring case |
| `Repositories.UserRepository.EmailExistsAsync` | Repositories/UserRepository/UserRepository.cs:106-114 | throws iff the argument is blank; otherwise true iff some email equals it ignoring case |
| `Repositories.UserRepository.SaveChangesAsync` | Repositories/UserRepository/UserRepository.cs:118-123 | returns whether the number of written changes is at least 0, which always holds |
| `Controllers.MapUpdate` | Controllers/PostsController.cs:110 | an edit replaces title and text and keeps key, owner and creation time |
| `Controllers.CreatePost` | Controllers/PostsController.cs:59-89 | a negative caller id gives 401 and no change. Otherwise exactly one post is added under the next key, carrying that key, the request's title and text, the clock's time and the caller as owner. The next key advances by one, other posts are unchanged and the result is 201 |
| `Controllers.UpdatePost` | Controllers/PostsController.cs:93-114 | an absent key gives 404 with no change, whoever asks. A caller who is not the owner gets 401 with no change. The owner gets 204: that post becomes the same post with the request's title and text, and nothing else changes |
| `Controllers.DeletePost` | Controllers/PostsController.cs:118-139 | an absent key gives 404 and a non-owner gets 401, both with no change. The owner gets 204, and exactly that post is removed |
| `Controllers.RunPreservesValid` | Controllers/PostsController.cs:59-139 | after any sequence of requests, keys match posts, stay below the next key, and owners are non-negative |
| `Controllers.RunKeepsOwners` | Controllers/PostsController.cs:93-139 | after any sequence of requests, a surviving post has the owner it started with, and no key is reused |
| `Controllers.SentinelOwnsNothing` | Controllers/PostsController.cs:101-133 | a caller with a negative id, the `-1` sentinel included, can neither update nor delete any post |
| `Controllers.PostsController.GetAllPostsAsync` | Controllers/PostsController.cs:32-38 | returns 200 with exactly the stored posts |
| `Controllers.PostsController.GetPostByIdAsync` | Controllers/PostsController.cs:43-55 | 404 iff the key is absent, otherwise 200 with that post |
| `Controllers.PostsController.CreatePostAsync` | Controllers/PostsController.cs:59-89 | the handler's result and new table are those of `CreatePost`, and the table invariant is kept |
| `Controllers.PostsController.UpdatePostAsync` | Controllers/PostsController.cs:93-114 | the handler's result and new table are those of `UpdatePost` |
| `Controllers.PostsController.DeletePostAsync` | Controllers/PostsController.cs:118-139 | the handler's result and new table are those of `DeletePost` |
| `Controllers.UsersController.GetAllUsersAsync` | Controllers/UsersController.cs:31-38 | 200 with every user, in table order |
| `Controllers.UsersController.GetUserByIdAsync` | Controllers/UsersController.cs:43-55 | 404 iff no user has the key, otherwise 200 with a user holding it |
| `Controllers.UsersController.RegisterUserAsync` | Controllers/UsersController.cs:60-78 | appends exactly one user with no duplicate check, under the next key, which then advances by one: a 32-byte salt, the hash of the password with that salt, and a stored password that verifies; 201 with that user |
| `Controllers.UsersController.LoginUserAsync` | Controllers/UsersController.cs:83-86 | a stub that answers 200 and changes nothing |
| `Controllers.UsersController.UpdateUser` | Controllers/UsersController.cs:90-93 | a stub that answers 200 and changes nothing |
| `Controllers.UsersController.DeleteUser` | Controllers/UsersController.cs:97-100 | a stub that answers 200 and changes nothing |

## Left out

- SHA-512 itself (FIPS 180-4, section 6.4) is a parameter that returns 64 bytes. Nothing else is known about it, so collision resistance is not assumed anywhere.
- `RandomNumberGenerator` fills each byte with an arbitrary value. Unpredictability and uniqueness across users cannot be stated.
- SecurePassword.FillRandom: has no contract beyond its frame, since every byte value is possible; `GenerateRandomSalt` is its only caller.
- SecurePassword.GenerateRandomSalt: states only the length and freshness of the salt, not that its bytes are random, for the reason above.
- JSON Web Token construction is not modelled: HMAC-SHA512 signing (section 3.2 of RFC 7518), compact serialization (section 7.1 of RFC 7515), the signing key read from configuration, and bearer-token validation in Program.cs. `CreateToken` is modelled up to the unsigned descriptor.
- `HttpContext` is not modelled: the NameIdentifier claim is an input to `GetUserId`. `DateTime.Now` is a parameter.
- Program.cs, dependency injection, routing, Swagger and `async`/`await` are not modelled; every call runs to completion in sequence.
- EF Core change tracking is collapsed. Inserts and removals take effect at once, and `SaveChangesAsync` only reports the number of pending changes. Deleting a user who is not stored leaves the table unchanged; EF Core would raise a concurrency exception at save time.
- The key the database assigns is modelled by a counter that starts at 1. Inserts with an explicit key and Int32 overflow of keys are not modelled.
- PostRepository.cs only throws `NotImplementedException`. The posts controller is modelled against a working in-memory table instead.
- `UpdatePostDto`, `UpdateUserDto` and `GetFullUserDto` are not part of this model's sources. `UpdatePostDto` is taken to carry Title and Text like `CreatePostDto`, and the `UpdateUser` stub's DTO argument is dropped.
- `GetUserDto.CreatedAt` has no counterpart on `User` and is not modelled. The `User.Posts` and `Post.User` navigation properties are not modelled either.
- Text.Utf16LeInjective: strings are modelled as sequences of Unicode scalar values. A C# string may hold an unpaired surrogate, which `Encoding.Unicode` writes as U+FFFD, so two distinct C# strings can share an encoding; such strings are outside the model.
- SecurePassword.HashInputInjective: holds only for passwords of Unicode scalar values. A C# password with an unpaired surrogate (say `"\uD800"`) reaches SHA-512 as the same bytes as the one with U+FFFD in its place.
- SecurePassword.WrongPasswordNeedsCollision: holds only for passwords of Unicode scalar values. In C#, `"\uD800"` verifies against a hash made from `"\uFFFD"` with no SHA-512 collision, because of the replacement above.
- SecureToken.FindFirstValue: compares claim types exactly, where .NET ignores case. The three claim types a token carries differ in length, so no proved statement depends on this.
- Lower-casing maps only ASCII letters. Culture-specific and non-ASCII case mappings, and the collation of the SQL `LOWER` that EF Core emits, are not modelled.
- `int.Parse` and `int.ToString()` are modelled with the invariant culture's `+` and `-` signs; a current culture with another minus sign is not modelled. The trailing NUL characters that .NET also accepts are not modelled.
- Null strings and arrays are not modelled inside entities and requests. These cases are left out: a null salt (which C# concatenates as the empty string), a null password, a null stored hash (`NullReferenceException`), and a null username or email in a stored user.
- Data-annotation validation on the DTOs (`Required`, `MaxLength`) is done by the framework and is not modelled.
