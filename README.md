# struct-query-generator, modelled in Dafny

The generator reads Go struct declarations and prints one named-parameter
SQL INSERT template per struct. A struct `User` with fields `ID`, `Name` and
`InvitationCode` becomes
`INSERT INTO users (id, name, invitation_code) VALUES (:id, :name, :invitation_code)`.
The model covers the whole pipeline after parsing:

- `Text` (text.dfy) holds the ASCII stand-ins for `unicode.IsUpper`, `IsLower`, `ToLower`,
  `strings.ToLower`, `strings.HasSuffix` and `strings.Join`.
- `Naming` (naming.dfy) holds the name normaliser:
  - `SnakeCase` is a loop that appends to a builder and remembers the previous character. It is proved
    equal to the specification function `SnakeCased`.
  - `Pluralize` and `NormalizeTableName` are functions.
  - The lemmas prove what the conversion does for every input.
- `Query` (query.dfy) holds `QueryBuilder` and its `InsertQuery` template.
- `Extract` (extract.dfy) holds the struct extractor:
  - `GetFields` fills a preallocated array by index.
  - `ExtractStructs` appends one builder per struct type specification.
  - Both are proved against the functions `Columns` and `Extracted`. Lemmas prove count, order and
    origin of the extracted builders.

The input of `ExtractStructs` is what Go's parser and the syntax-tree walk produce: either a parse
error, or the type specifications in the order the walk meets them. Each one is either a struct type
with its field list or some other type. A field entry is the list of names declared for it.

Three behaviours of the code differ from what its INSERT format and its tests suggest. The model follows the code:

- With no fields, the template ends in `VALUES (:)`, not `VALUES ()`. The format string writes a colon
  before the joined placeholder list.
- An embedded field, which has no name, is not dropped. Its slot in the column list stays the empty
  string, so `[embedded, ID]` gives `(, id) VALUES (:, :id)`.
- The test at main_test.go:83 expects `getFields` to return `["ID", "Name"]`. The code snake-cases
  every name, so it returns `["id", "name"]`. `ColumnsIdName` proves the latter.

## Model

| member | source | states |
|---|---|---|
| `Text.IsUpper` | main.go:91 | no upper-case letter is also lower case, and each one's small letter lies 32 code points above it |
| `Text.IsLower` | main.go:91 | each lower-case letter's capital lies 32 code points below it |
| `Text.ToLower` | main.go:95 | the result is never an upper-case letter; an upper-case letter becomes the small letter at the same alphabet position; every other character is kept |
| `Text.Lower` | main.go:18 | same length, no upper-case letter, character `k` of the result is character `k` of the input lowered, and a no-op on a string that has none |
| `Text.Join` | main.go:18 | no parts give `""` and one part gives that part unchanged |
| `Text.JoinLength` | main.go:18 | several parts give a string that starts with the first part and the separator, and whose length is the parts' total length plus one separator per neighbouring pair |
| `Text.JoinPrefixed` | main.go:18 | joining with `", :"` after a leading `:` equals joining the colon-prefixed names with `", "` (for a non-empty list) |
| `Naming.SnakeCase` | main.go:86-99 | the single pass with its builder and `prev` character computes exactly `SnakeCased(s)` |
| `Naming.SnakeCasedNoUpper` | main.go:95 | the output contains no upper-case letter |
| `Naming.SnakeCasedHead` | main.go:89-95 | on non-empty input the first output character is the lowered first input character; no underscore is inserted at position 0 |
| `Naming.SnakeCasedLength` | main.go:89-97 | output length is the input length plus the number of positions `i > 0` with `s[i]` upper case and `s[i-1]` lower case |
| `Naming.SnakeCasedOnlyInsertsUnderscores` | main.go:91-95 | with all underscores deleted, output and lowered input are equal: the pass only lowers and inserts underscores |
| `Naming.SnakeCasedIsLowerIff` | main.go:91-95 | the output equals the lowered input if and only if there is no lower-to-upper boundary |
| `Naming.SnakeCasedIdentity` | main.go:91-95 | on a string without upper-case letters the conversion is the identity |
| `Naming.SnakeCasedIdempotent` | main.go:86-99 | converting twice equals converting once |
| `Naming.SnakeCasedAppendLower` | main.go:91-95 | appending lower-case text to the input appends it unchanged to the output |
| `Naming.SnakeCasedCamelStep` | main.go:91-92 | an upper-case letter after a lower-case one yields `_` plus its lower-case form |
| `Naming.SnakeCasedHelloWorld` | main_test.go:63 | `helloWorld` becomes `hello_world` |
| `Naming.SnakeCasedAcronym` | main.go:91 | `ID` becomes `id`: no underscore inside an upper-case run |
| `Naming.SnakeCasedUserID` | main.go:91-95 | `UserID` becomes `user_id`: only the boundary before the acronym gets an underscore |
| `Naming.EndsWithY` | main.go:79 | holds exactly when `strings.HasSuffix(s, "y")` does: the string is non-empty and its last one-character slice is `"y"` |
| `Naming.Pluralize` | main.go:78-83 | the result is non-empty and ends in `s`; a trailing `y` becomes `ies`, otherwise `s` is appended; lower-case input stays lower case |
| `Naming.PluralizeRoundTrip` | main.go:78-83 | `Singularize` undoes `Pluralize` if and only if the word does not end in `ie` |
| `Naming.PluralizeCollision` | main.go:79-82 | `movie` and `movy` get the same plural `movies` |
| `Naming.PluralizeExamples` | main_test.go:43 | `cat` to `cats`, `city` to `cities`, and, under the literal rule, `bus` to `buss` |
| `Naming.NormalizeTableName` | main.go:73-75 | a table name is non-empty, ends in `s` and has no upper-case letter |
| `Naming.NormalizeTableNameUser` | main_test.go:123 | `User` gives `users` |
| `Naming.NormalizeTableNamePostCount` | main_test.go:124 | `PostCount` gives `post_counts` |
| `Naming.NormalizeTableNameReviewPost` | main.go:72 | `ReviewPost` gives `review_posts` |
| `Query.QueryBuilder.InsertQuery` | main.go:17-19 | the template is `INSERT INTO`, the lowered table, the columns joined by `", "`, then `VALUES` with each column prefixed by `:` in the same order; with no columns it ends in `() VALUES (:)` |
| `Query.InsertQueryUsers` | main_test.go:19 | table `users` with `id, name, invitation_code` gives the test's exact template |
| `Query.InsertQueryNoFields` | main.go:18 | for any table name, an empty field list gives `INSERT INTO`, the lowered table, then `() VALUES (:)` |
| `Extract.GetFields` | main.go:60-69 | the result is `Columns(fs)`: one column per field entry; slot `i` is the snake_case form of the entry's first name, or `""` when the entry has no names |
| `Extract.ExtractStructs` | main.go:31-58 | a parse error gives no builders; otherwise the result is `Extracted(specs)` |
| `Extract.ExtractedSnoc` | main.go:53 | one more specification appends what it contributes, if anything |
| `Extract.ExtractedAppend` | main.go:41-56 | extraction distributes over concatenation of the walk |
| `Extract.ExtractedPrefixStep` | main.go:43-54 | a prefix extended by one specification appends that specification's builder, if any |
| `Extract.ExtractedPrefixes` | main.go:41-56 | the builders of a longer prefix of the walk extend those of a shorter one |
| `Extract.ExtractedLength` | main.go:43-54 | the number of builders equals the number of struct type specifications |
| `Extract.ExtractedAt` | main.go:43-54 | the struct at position `i` yields, at position "builders before it", the builder with its normalised name and `getFields` columns |
| `Extract.ExtractedOrdered` | main.go:41-56 | a later struct specification yields a later builder |
| `Extract.ExtractedFromStructs` | main.go:43-53 | every builder comes from some struct specification |
| `Extract.ExtractedTableNamesLower` | main.go:18 | every extracted table name is already lower case, so the template's second lowering changes nothing |
| `Extract.ExtractedUser` | main_test.go:103 | a non-struct type followed by `User{ID, Name, InvitationCode}` gives exactly one builder, `users` with `id, name, invitation_code` |
| `Extract.ColumnsIdName` | main_test.go:83 | the fields `ID` and `Name` give the columns `id` and `name` |
| `Extract.EmbeddedFieldQuery` | main.go:63-65 | an embedded field before `ID` gives the template `INSERT INTO ts (, id) VALUES (:, :id)` |

## Left out

- Parsing (`parser.ParseFile`, `token.NewFileSet`) and the generic `ast.Inspect` walk are not modelled. They are library calls. Their result is the input sequence of `TypeSpec` values, and a failed parse is `ParseError`.
- Printing the parse error, and `main` with its hard-coded file path and `fmt.Println` output, are not modelled. They are I/O.
- Field types are not modelled. The generator never reads them.
- Unicode case tables are not modelled: upper case, lower case and lowering are ASCII only (`'A'..'Z'`, `'a'..'z'`).
- Go's UTF-8 iteration is not modelled: strings are sequences of characters. "`i > 0`" in the conversion means "not the first character", not a byte offset.
- `Extract.ExtractStructs`: returns the empty sequence for a parse error, where Go returns a nil slice; the two print the same.
