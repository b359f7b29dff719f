# Autocomplete endpoint — a verified Dafny model

This project models the autocomplete endpoint of the `baseauth` web application,
`AutoComplete.get` in `src/api/views/autocomplete.py`. The endpoint reads three
optional query parameters:

- `q`: the search string.
- `type`: a comma-separated list of kinds of record.
- `limit`: the maximum number of suggestions, 100 by default.

It answers in one of three ways:

- an HTTP 400 response with one of three fixed messages;
- a list of suggestions `{'id': username, 'label': ...}`, built from the users
  whose first name, last name or username contains `q` in any case. When
  `type` asks for `user`, the list is wrapped in one group,
  `{'id': 'Django Auth User', 'label': 'User', 'data': [...]}`;
- an HTTP 500 response, when a negative limit makes the query raise an
  exception outside the view's `try`.

The view keeps no state, so the model uses only functions and lemmas:

- `wrappers.dfy`: `Option`, for a parameter that may be absent.
- `pystr.dfy` (module `PyStr`): the Python `str` operations the view uses,
  `lower()`, `strip()` and `split(',')`. It also holds the substring test
  that stands for the database's case-insensitive `icontains` lookup.
- `pyint.dfy` (module `PyInt`): Python's `int()` on a string. It skips
  surrounding whitespace, takes an optional sign, and allows single
  underscores between digits. Where Python raises `ValueError`, the model
  returns `None`.
- `autocomplete.dfy` (module `Autocomplete`): the view, `Autocomplete.Get`.
  The request parameters are `Option<string>` values. The user table is a
  `seq<User>` in database order. The database query is a filter over that
  sequence. The response is a datatype: `Error(message)`, `Plain(items)`,
  `Grouped(groups)`, or `Raised`. `Raised` stands for the exception that a
  negative limit causes when the queryset is sliced, outside the view's `try`.
  Dafny reserves the word `label`, so the `label` key of a suggestion or group
  is the field `caption`.

## Model

| member | source | states |
|---|---|---|
| `Autocomplete.Get` | src/api/views/autocomplete.py:42-116 | The limit error is returned exactly when `limit` is present, non-empty and not an integer literal, whatever `q` and `type` are. The missing-query error is returned exactly when the limit is fine and `q` is absent or empty, whatever `type` is. The type error is returned exactly when both are fine, `type` is non-empty and no entry is `user`. A response is grouped exactly when the search runs with a non-negative limit and `type` is non-empty, and it is then one group with id `Django Auth User` and label `User`. It is plain exactly when the search runs with a non-negative limit and `type` is empty or absent. A negative limit raises. A limit too large for the database is treated like any other positive limit (see `Autocomplete.Get` under Left out). Either kind of list holds the items of the selected users |
| `Autocomplete.EffectiveLimit` | src/api/views/autocomplete.py:59-64 | An absent or empty `limit` means 100. A present limit is `int(limit)`, so its value is that of the stripped literal. Parsing fails exactly when `limit` is non-empty and not an integer literal |
| `Autocomplete.LimitFive` | src/api/views/autocomplete.py:59-60 | `limit=5` is the limit 5 |
| `Autocomplete.Status` | src/api/views/autocomplete.py:62-116 | A response has status 400 exactly when it is an error. It has status 200 exactly when it is a list of suggestions |
| `PyInt.ParseInt` | src/api/views/autocomplete.py:60 | `int(s)` succeeds exactly on the strings of the grammar `IsIntLiteral`: optional whitespace, an optional sign, digits with single underscores between them, and optional whitespace. Its value is the value of the stripped literal, as `SignedValue` defines it |
| `PyInt.ParseDigitRun` | src/api/views/autocomplete.py:60 | The right-to-left digit reader fails exactly on strings that are not digit runs, meaning an underscore first, last or doubled, or any other character. When it succeeds, its value equals the separate left-to-right reading `DigitsValue`, which multiplies by ten at each digit and skips underscores |
| `PyInt.ParseSigned` | src/api/views/autocomplete.py:60 | A sign and digit run parses exactly when it fits the grammar. Its value is the digits' value, negated after `-` and unchanged after `+` |
| `PyInt.LeadingZeroValue` | src/api/views/autocomplete.py:60 | A leading zero does not change the value of the digits |
| `PyInt.UnderscoreValue` | src/api/views/autocomplete.py:60 | An underscore between digits does not change their value |
| `PyInt.SignedExample` | src/api/views/autocomplete.py:60 | `+0_07` parses to 7 |
| `PyInt.IntLiteralIff` | src/api/views/autocomplete.py:60 | A string is a literal exactly when it has no information separator (U+001C..U+001F) and its `strip()` is a signed digit run |
| `PyInt.ParseShowInt` | src/api/views/autocomplete.py:60 | Round trip: `int(str(n)) == n` for every integer `n` |
| `PyInt.ParseIgnoresSpace` | src/api/views/autocomplete.py:60 | Whitespace that `int()` skips, on either side of a signed digit run, does not change the parsed value |
| `Autocomplete.TypeList` | src/api/views/autocomplete.py:67-69 | There is no type list exactly when `type` is absent or empty. Otherwise entry `k` is piece `k` of `type.split(',')`, lower-cased and stripped. The list has one entry more than `type` has commas, so it has at least one entry, and no entry contains a comma |
| `Autocomplete.TypeEntry` | src/api/views/autocomplete.py:68 | Each entry has no capital letter and no surrounding whitespace, and contains a comma only if its piece did |
| `Autocomplete.TypeEntryIsUser` | src/api/views/autocomplete.py:68-77 | An entry equals `user` exactly when its piece, lower-cased, is `user` with only whitespace around it |
| `PyStr.Split` | src/api/views/autocomplete.py:68 | `split(',')` gives one piece more than there are separators, and no piece contains the separator |
| `PyStr.JoinSplit` | src/api/views/autocomplete.py:68 | Joining the pieces of `split(sep)` with `sep` gives back the original string |
| `PyStr.SplitJoin` | src/api/views/autocomplete.py:68 | Splitting a join of separator-free pieces gives back the pieces |
| `PyStr.LowerChar` | src/api/views/autocomplete.py:68 | A capital letter becomes the small letter at the same place in the alphabet. Every other character is kept |
| `PyStr.Lower` | src/api/views/autocomplete.py:68 | `lower()` keeps the length and applies `LowerChar` at each position |
| `PyStr.Strip` | src/api/views/autocomplete.py:68 | `strip()` leaves no whitespace at either end and uses only characters of its input |
| `PyStr.StripPadded` | src/api/views/autocomplete.py:68 | Whitespace, then a trimmed core, then whitespace, strips to exactly that core |
| `PyStr.StripIsCore` | src/api/views/autocomplete.py:68 | `strip()` gives a trimmed core exactly when the string is that core with whitespace around it |
| `PyStr.Contains` | src/api/views/autocomplete.py:80-84 | The substring test behind `icontains` returns true exactly when `sub` occurs in `s` at some position |
| `Autocomplete.FilterUsers` | src/api/views/autocomplete.py:80-85 | The filtered table holds each matching user as often as the table does, and no user that fails to match |
| `Autocomplete.FilterUsersMembers` | src/api/views/autocomplete.py:80-85 | A user is in the filtered table exactly when it is in the table and one of its three fields contains `q`, ignoring case |
| `Autocomplete.FilterUsersAppend` | src/api/views/autocomplete.py:85 | The filter keeps table order: filtering `a + b` gives the filtered `a`, then the filtered `b` |
| `Autocomplete.SliceTo` | src/api/views/autocomplete.py:88 | `s[:stop]` is a prefix of `s` of length `min(stop, len(s))` |
| `Autocomplete.Selected` | src/api/views/autocomplete.py:80-88 | A limit of 0 keeps all matching users. A positive limit `n` keeps a prefix of the matching users, of length `min(n, len(matching))` |
| `Autocomplete.SelectedMatch` | src/api/views/autocomplete.py:80-88 | Every user kept after the cap is in the table and matches the query |
| `Autocomplete.Label` | src/api/views/autocomplete.py:94-100 | The label is empty only when all three fields are empty. A label for a user with a first name starts with that first name |
| `Autocomplete.LabelIsJoinedNames` | src/api/views/autocomplete.py:94-100 | The four-way conditional equals a separate definition: the non-empty names joined by one space, or the username when both names are empty |
| `Autocomplete.ToItem` | src/api/views/autocomplete.py:92-101 | A suggestion's id is the username and its label is the user's label |
| `Autocomplete.Items` | src/api/views/autocomplete.py:91-103 | There is one suggestion per selected user, in the same order |
| `Autocomplete.ItemsOfPrefix` | src/api/views/autocomplete.py:88-103 | Formatting a prefix of the users gives a prefix of the suggestions |
| `Autocomplete.SuggestionsMatch` | src/api/views/autocomplete.py:80-103 | Every returned suggestion is the suggestion of a user in the table that matches the query |
| `Autocomplete.SuggestionsUncapped` | src/api/views/autocomplete.py:85-103 | With limit 0 the suggestions are those of all matching users, in table order, so none is missing |
| `Autocomplete.SuggestionsCapped` | src/api/views/autocomplete.py:85-103 | With a positive limit `n`, there are at most `n` suggestions. They are a prefix of the suggestions for all matching users, and there are exactly `n` of them unless fewer users match |
| `Autocomplete.CommaTypeRejected` | src/api/views/autocomplete.py:67-116 | `type=,` gives two empty entries, and the view answers with the type error |
| `Autocomplete.GroupTypeRejected` | src/api/views/autocomplete.py:67-116 | `type=group` is answered with the type error |
| `Autocomplete.PaddedUserTypeGrouped` | src/api/views/autocomplete.py:67-110 | `type= User ,group` is accepted, and the suggestions are wrapped in the user group |

## Left out

- The request and response machinery of the web framework is not modelled.
  This covers `APIView`, `Response`, the status objects, JSON rendering and
  the OpenAPI `extend_schema` and `OpenApiParameter` declarations
  (src/api/views/autocomplete.py:1-41). A response is a plain datatype instead.
- The database query itself is not modelled: `get_user_model`, `objects.filter`
  and `Q`. The user table is a sequence. Without `order_by` the database may
  return rows in any order, and the model takes the sequence's order.
- `Autocomplete.IContains`: case is folded only for ASCII letters. SQLite's
  `LIKE` behaves this way. Other databases, such as PostgreSQL with `UPPER`,
  also fold non-ASCII letters, and the model does not capture that.
- `PyStr.Lower`: only ASCII letters are lower-cased, while Python lowers all of
  Unicode. This changes no visible result. The entries only matter through the
  test "`user` is an entry". The only characters that lower to `u`, `s`, `e`
  or `r` are those letters and their ASCII capitals.
- `PyInt.ParseInt`: non-ASCII decimal digits, such as Arabic-Indic digits,
  are rejected, although Python's `int()` accepts them. Python also refuses
  literals of more than 4300 digits by default, and that setting can be
  changed; the model accepts literals of any length.
- `Autocomplete.Get`: a limit of 2^63 or more is a valid `int()`, and the view
  passes it to the database as `LIMIT`. SQLite and PostgreSQL reject such a
  value when the query runs, outside the `try`, so the view answers 500. The
  model answers such a limit like any other positive limit, with the matching
  users. The bound belongs to the database, which is not part of this model,
  so `Get` does not promise `Raised` above it.
- A negative limit gives the abstract `Raised` response. Which exception
  Django's queryset slicing raises depends on the Django version, and Django
  is not part of this model. The 500 that `Status` gives it is the framework's
  usual handling of an uncaught exception.
- `UserProfileFileSystemStorage.__init__` (src/user_preferences/storages.py:13-16)
  is not modelled. It only passes the media root and media URL settings to the
  framework's file storage.
