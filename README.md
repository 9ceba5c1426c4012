# TemplateFastAPI core, modelled in Dafny

TemplateFastAPI is a FastAPI service template. Its REST endpoints for a
`Car` resource delegate to a generic CRUD engine, `CRUDBase` in
crud/base.py. The engine reads, filters, sorts, pages, creates, updates and
deletes rows through an SQLAlchemy session. Around it sit a handful of
helpers:

- input validators and phone-number formatters in utils.py;
- the XML-escaping step and the namespace-stripping rule of the XML
  renderer in core/xml_render.py;
- the `normalize` template filter in core/filters.py;
- the pydantic validators in core/example-config.py that build the CORS
  origin list and the database connection URIs.

The Dafny model is split by concern:

| file | module | what it holds |
|---|---|---|
| text.dfy | `Text` | Python string primitives the core relies on: `str.strip`, `str.find`, `str.split`, `','.join`, f-string rendering of integers |
| crud_records.dfy | `Records` | the `Car` row, its columns, and SQL comparison, `IN`, `LIKE` and `ILIKE` semantics |
| crud_queries.dfy | `Queries` | the read operations of `CRUDBase`, as functions of the table contents |
| crud_table.dfy | `CrudTable` | the write operations of `CRUDBase`, as methods of a `Table` class whose fields are the rows and the id sequence |
| utils.dfy | `Utils` | `valida_pwd`, `valida_username`, `valida_email`, `valida_cpf`, `format_whatsapp_number`, `format_sms_number` |
| xml_render.dfy | `XmlRender` | `XmlRender.escape` over a mutable parameter dictionary, and the tag rule of `sanitize_response` over an array of tags |
| filters.dfy | `Filters` | `strip_line_feed` |
| config.dfy | `Settings` | `assemble_cors_origins` and the three `assemble_db_connection_*` validators |

The database is a sequence of rows. A query is a function of that
sequence. A commit is an update of the `rows` field of `CrudTable.Table`.
An `HTTPException(400, detail)` becomes `Err(HttpError(400, detail))`.
A `ValueError` or `KeyError` becomes an `Err` of the module's error type.

## Model

| member | source | states |
|---|---|---|
| Queries.Get | crud/base.py:27-29 | the row returned has the requested id and is in the table; `None` exactly when no row has that id |
| Queries.GetUnique | crud/base.py:27-29 | with unique ids, looking up the id of any stored row returns that row |
| Queries.SortBy | crud/base.py:42 | `order_by(column)` returns a permutation of the rows, sorted by the column under SQL ordering |
| Queries.Insert | crud/base.py:42 | inserting into a sorted list keeps it sorted and adds exactly that row to the multiset |
| Queries.SortByIdIncreasing | crud/base.py:42 | with unique ids, ordering by `id` gives strictly increasing ids |
| Queries.Page | crud/base.py:42 | `offset(skip).limit(limit)` returns at most `limit` rows; the k-th returned row is row `skip + k`, and the count is `min(limit, rows left after skip)` |
| Queries.GetMulti | crud/base.py:38-42 | an unknown `order_by` name fails; otherwise the page holds `min(limit, rows left after skip)` rows, its k-th row being row `skip + k` of the table sorted by the column; it is sorted and a sub-multiset of the table, and with `skip = 0` and a large enough limit it is the whole table |
| Queries.PagesAdjacent | crud/base.py:42 | two consecutive pages of size `limit` concatenate to the page of size `2*limit` at the same offset |
| Queries.ConsecutivePagesDisjoint | crud/base.py:42 | over distinct rows, consecutive pages share no row |
| Queries.PagesDisjoint | crud/base.py:38-42 | with unique ids, `get_multi` at `skip` and at `skip+limit` together give the double-size page and share no row |
| Queries.DistinctUnderPermutation | crud/base.py:42 | a permutation of rows with unique ids has no repeated row, so sorting cannot duplicate a row |
| Queries.GetMultiFilter | crud/base.py:44-49 | fails exactly when `order_by` or `filterby` is not a column, naming the first bad one; otherwise returns, sorted, exactly the rows whose column equals the value, none of them more often than the table holds it |
| Queries.GetFirstByFilter | crud/base.py:31-36 | fails exactly on an unknown column name; otherwise returns a matching row that precedes every other matching row in the requested order, or `None` when no row matches |
| Queries.ParseOp | crud/base.py:62-83 | an accepted operator string is the very key the entry found is stored under |
| Queries.OpNameParses | crud/base.py:62-74 | every entry of the operator map is found under its own key |
| Queries.ParseOpKnown | crud/base.py:62-74 | an operator string is accepted exactly when it is one of `=`, `!=`, `<`, `<=`, `>`, `>=`, `like`, `ilike`, `in`, `notin` |
| Queries.Resolve | crud/base.py:71-86 | a missing `field` key raises first, then a missing `value` key; a success names the requested column, the given value and the operator stored under the given key (`=` when absent); a single value for `in` or `notin` fails exactly when the keys and the column are fine |
| Queries.Holds | crud/base.py:63-72 | a row is kept only when the argument has the shape its operator needs: a list exactly for `in` and `notin` |
| Queries.SpecHolds | crud/base.py:77-84 | a filter without an `operator` key keeps exactly the rows whose column equals the value |
| Queries.Compose | crud/base.py:76-86 | the filter list resolves exactly when every filter resolves, with one predicate per filter in order; a failure is the failure of the first filter that does not resolve |
| Queries.Where | crud/base.py:84-88 | a row is returned exactly when it is in the table and satisfies every predicate; no row is invented or duplicated |
| Queries.GetMultiFilters | crud/base.py:51-88 | on success a row is returned exactly when it satisfies every filter, no row more often than the table holds it, and every operator used was known; when some filter does not resolve, the call fails with the error of the first such filter; when all resolve, it fails exactly when some argument does not fit its operator |
| Queries.FilterSetIsConjunction | crud/base.py:76-88 | the rows matching a list of filters are exactly those matching each filter on its own |
| Queries.ComposeSingle | crud/base.py:76-86 | a single resolvable filter composes to its own predicate |
| Queries.FirstBadFilterReported | crud/base.py:76-86 | when filter `i` is the first that does not resolve (a missing `field` or `value` key, an unknown field or operator, a single value for `in` or `notin`), the call fails with that filter's error, whatever the later filters are |
| Queries.UnknownOperatorRejected | crud/base.py:85-86 | an operator outside the map raises "unknown operator", naming it |
| Queries.SingleValueInRejected | crud/base.py:71-72 | `in` or `notin` with a single value fails with the argument error, whatever the later filters are |
| Queries.ParseLastOp | crud/base.py:104-130 | exactly `>`, `<`, `>=`, `<=`, `==`, `!=`, `like` and `is_null` are recognised |
| Queries.Render | crud/base.py:124 | an integer renders as text that reads back as it; a string renders as itself |
| Queries.LastHolds | crud/base.py:104-127 | `is_null` keeps exactly the rows whose column is NULL, whatever value it is given; `==` with `None` does the same |
| Queries.FilterHolds | crud/base.py:100-130 | an item that raises keeps no row; an item whose operator is not in the chain keeps every row |
| Queries.ResolveLast | crud/base.py:100-130 | building the filter chain fails exactly when some item raises: its `operator` or `value` key is missing, or a known operator names no column; otherwise the chain holds for a row exactly when every filter does |
| Queries.LastMatch | crud/base.py:132 | `order_by(desc(id)).first()` returns a matching row whose id is at least that of every matching row, or `None` when no row matches |
| Queries.GetLastByFilters | crud/base.py:90-132 | fails exactly when some filter raises; otherwise returns the matching row with the largest id, or `None` exactly when no row satisfies every filter |
| Queries.UnknownLastOperatorIgnored | crud/base.py:128-130 | a filter whose operator is not recognised is skipped: the result is that of the other filters |
| Queries.LastLikeIsContainment | crud/base.py:122-124 | `like` wraps the value in `%...%`, so it holds exactly when the column is a string containing the value |
| Records.ColumnNamedInverse | crud/base.py:81 | `getattr(model, name)` finds column `c` exactly when `name` is that column's name |
| Records.StrLess | crud/base.py:42 | a proper prefix sorts before the longer string, and no string sorts before itself |
| Records.ValueLess | crud/base.py:42 | NULL sorts after every other value and before none (NULLS LAST) |
| Records.Compare | crud/base.py:63-68 | a comparison with a non-NULL argument never keeps a NULL column; `<`, `<=`, `>` and `>=` keep only values of the argument's kind |
| Records.StrLessTrichotomy | crud/base.py:42 | string ordering is a strict total order: irreflexive, asymmetric and total |
| Records.StrLessTransitive | crud/base.py:42 | string ordering is transitive |
| Records.ValueLessTotal | crud/base.py:42 | the ordering of column values (integers, then strings, NULL last) is total and asymmetric |
| Records.ValueLessTransitive | crud/base.py:42 | the ordering of column values is transitive |
| Records.PrecedesTotal | crud/base.py:42 | any two rows are ordered one way or the other by `order_by` |
| Records.PrecedesTransitive | crud/base.py:42 | the row order of `order_by` is transitive |
| Records.PrecedesById | crud/base.py:42 | ordering by `id` is ordering by the integer id |
| Records.EqNeComplement | crud/base.py:63-64 | on a non-NULL column, `!=` holds exactly when `=` does not |
| Records.LtEqGtTrichotomy | crud/base.py:63-68 | on comparable values one of `<`, `=`, `>` holds, `<` and `>` never both, and `<=` is `<` or `=` |
| Records.InList | crud/base.py:71-72 | `in_` and `notin_` never both hold; on a non-NULL column and a list without NULL one of them does |
| Records.NotInList | crud/base.py:72 | over a non-empty list, `notin_` never keeps a NULL column |
| Records.InListIsAnyEq | crud/base.py:71 | `in_` holds exactly when the column equals some non-NULL list element |
| Records.NotInListIsAllNe | crud/base.py:72 | over a non-empty list, `notin_` holds exactly when the column differs from every element and no element is NULL |
| Records.Like | crud/base.py:69 | a pattern without `%` matches only strings of its own length |
| Records.LikeLiteral | crud/base.py:69 | a pattern without wildcards matches only the identical string |
| Records.LikePercent | crud/base.py:69 | the pattern `%` matches every string |
| Records.LikePrefix | crud/base.py:69 | `v%` matches exactly the strings that start with `v` |
| Records.LikeLeadingPercent | crud/base.py:69 | `%q` matches exactly when some suffix of the string matches `q` |
| Records.LikeSubstring | crud/base.py:122-124 | `%v%` matches exactly the strings containing `v` |
| Records.ILikeIgnoresCase | crud/base.py:70 | `ilike` gives the same answer for two strings that differ only in the case of their letters |
| Records.ILikeLiteral | crud/base.py:70 | with a pattern without wildcards, `ilike` holds exactly when the string equals the pattern up to case |
| Records.ILikeExample | crud/base.py:69-70 | `ABC` matches `abc` under `ilike` but not under `like` |
| CrudTable.NewRows | crud/base.py:145 | `create_multi` builds one row per payload, in order, the k-th taking the k-th id of the sequence |
| CrudTable.AppendFreshKeepsUnique | crud/base.py:143-148 | appending rows whose ids are all fresh keeps ids unique |
| CrudTable.CreateThenGet | crud/base.py:134-141 | after adding a row with a fresh id, `get` finds it by its id and every other lookup is unchanged |
| CrudTable.Assign | crud/base.py:163-165 | every column named in the patch takes the patch value, every other column keeps the row's value |
| CrudTable.AssignIgnoresExtraKeys | crud/base.py:163-164 | patch keys that are not columns have no effect |
| CrudTable.PartialUpdateExample | crud/base.py:158-165 | a patch naming only `year` changes only `year` |
| CrudTable.ReplaceRow | crud/base.py:166-168 | the row with the given id is replaced, every other position is unchanged |
| CrudTable.CommitUpdate | crud/base.py:166-168 | the commit succeeds exactly when the new id is an integer and is either unchanged or free; the committed row is the draft |
| CrudTable.CommitUpdateKeepsUnique | crud/base.py:166-168 | a successful update commit keeps ids unique |
| CrudTable.FirstWhere | crud/base.py:185 | `filter_by(...).first()` returns a row whose column equals the value; `None` exactly when none does |
| CrudTable.UpdateWhere | crud/base.py:187-191 | `UPDATE ... WHERE key == value` succeeds exactly when every patched row still has an integer id and no two ids clash, so always when the ids were unique and the payload has no `id`; then every matching row receives the payload, every other row is unchanged, and the ids stay unique |
| CrudTable.UpdateOne | crud/base.py:182-192 | a missing key field raises KeyError; a success means the key is a column; an object is loaded exactly when some row matches, and it is the first match; without a match nothing changes |
| CrudTable.UnmatchedInputSkipped | crud/base.py:186 | an input whose key value matches no row changes nothing and reports nothing |
| CrudTable.MissingKeyRaises | crud/base.py:184 | an input without the key field raises KeyError |
| CrudTable.UnknownKeyColumnRaises | crud/base.py:184-185 | a key field that names no column raises |
| CrudTable.UnknownFieldRaises | crud/base.py:186-191 | when a row matches, a payload field that names no column raises before the commit |
| CrudTable.ColumnPayloadSucceeds | crud/base.py:182-193 | on a table with unique ids, an input whose fields all name columns and leave `id` alone never raises |
| CrudTable.MatchedRowsReceivePayload | crud/base.py:184-194 | each matching row takes every payload column; non-matching rows are untouched |
| CrudTable.MatchedInputCommits | crud/base.py:182-192 | on a table with unique ids, an input whose fields all name columns and leave `id` alone commits when a row matches: the object is listed and each matching row takes every payload field |
| CrudTable.UnmatchedInputDropped | crud/base.py:181-194 | an input that matches no row leaves the whole batch result as if it were absent |
| CrudTable.UpdateOneKeepsUnique | crud/base.py:182-193 | one `update_multi` iteration keeps ids unique |
| CrudTable.RunUpdatesKeepsUnique | crud/base.py:181-195 | the whole `update_multi` loop keeps ids unique and reports at most one row per input |
| CrudTable.RunUpdatesStops | crud/base.py:181-195 | the first failing input stops the loop; the commits of earlier inputs stay |
| CrudTable.RunUpdatesStep | crud/base.py:181-195 | a succeeding input commits, appends its refreshed row, and the loop goes on from the new rows |
| CrudTable.RunUpdatesAdvance | crud/base.py:181-195 | one input either raises before its commit, raises on its refresh after its commit, or commits, keeps ids unique and lets the loop go on from the new rows |
| CrudTable.RunUpdates | crud/base.py:181-195 | the loop appends at most one object per input |
| CrudTable.RunUpdatesRefreshFails | crud/base.py:192-193 | a refresh that fails ends the loop with its own commit in place |
| CrudTable.ReadBack | crud/base.py:193-195 | loading the appended objects succeeds exactly when each one's key names a row of the final table, and gives that row for each |
| CrudTable.Answer | crud/base.py:195 | the answer is one list holding, for each appended object, its row's final state, or the exception that stopped the loop |
| CrudTable.UpdateOneKeepsIds | crud/base.py:187-191 | a payload without `id` keeps every row's primary key |
| CrudTable.UpdateOneSettles | crud/base.py:187-193 | a payload without `id` keeps every primary key in place, so the refresh after the commit finds its row |
| CrudTable.ListedObjectsLoad | crud/base.py:181-195 | when no payload sets `id`, primary keys stay put, no refresh fails, and the answer fails only on an exception an input raised |
| CrudTable.SameRowListedTwice | crud/base.py:185-194 | the same row matched by two inputs is listed twice, both times in its final state |
| CrudTable.IdChangeRefreshFails | crud/base.py:187-193 | a payload that changes the matched row's `id` commits, then its refresh raises |
| CrudTable.Without | crud/base.py:199-200 | deleting by id keeps exactly the rows with another id, none more often than before |
| CrudTable.WithoutRemovesOne | crud/base.py:197-202 | with unique ids, deleting an existing id removes exactly one row |
| CrudTable.WithoutNoOp | crud/base.py:199-200 | deleting an absent id changes nothing |
| CrudTable.WithoutKeepsUnique | crud/base.py:199-201 | deletion keeps ids unique |
| CrudTable.RemoveThenGet | crud/base.py:197-202 | after `remove(id)`, `get(id)` is `None` and every other lookup is unchanged |
| CrudTable.Table.Create | crud/base.py:134-141 | the sequence advances by one; the payload becomes a row with the handed-out id, appended when the id is free, rejected otherwise; the table stays valid |
| CrudTable.Table.CreateMulti | crud/base.py:143-148 | the sequence advances by the batch size; all rows are appended together and the fixed `{'msg': ...}` dictionary returned, or none are when an id is taken |
| CrudTable.Table.Update | crud/base.py:150-170 | the patched row replaces the stored one when the commit succeeds; otherwise the table is unchanged; the table stays valid |
| CrudTable.Table.UpdateMulti | crud/base.py:172-195 | the table ends as the update loop leaves it, the commits before an exception staying; the answer is the loop's objects read back from the final rows and wrapped in a one-element list, or the first exception, a refresh that fails after an `id` change included |
| CrudTable.Table.Remove | crud/base.py:197-202 | returns the stored row with that id and deletes it; the table stays valid |
| Utils.FirstBroken | utils.py:6-42 | `None` exactly when every rule passes; otherwise a rule that fails |
| Utils.ValidaPwd | utils.py:6-42 | a success is `True`; every failure is an HTTP 400 |
| Utils.PwdVerdict | utils.py:6-42 | the error is the message of the first broken rule, checked in the order length, upper case, lower case, digit, special; the password is accepted exactly when all five rules pass |
| Utils.PwdAccepted | utils.py:6-42 | `Abc12!` is accepted |
| Utils.PwdWithoutUpper | utils.py:14-19 | `abc12!` is refused with the upper-case message |
| Utils.ValidaUsername | utils.py:45-59 | the evidently intended check: accepted exactly when at least 6 characters, all ASCII letters, digits or `_`; otherwise 400 with the length message first, then the character message |
| Utils.ValidaUsernameAsWritten | utils.py:45-59 | the check as written accepts every name the intended check accepts and otherwise only names ending in a line feed; where it refuses, it answers as the intended check does |
| Utils.UsernameVersionsAgree | utils.py:54 | on input without a line feed, the regex as written and the intended check agree |
| Utils.UsernameNewlineAccepted | utils.py:54 | a valid name followed by a line feed passes the regex as written but is refused by the intended check |
| Utils.ParseAddress | utils.py:130 | a parsed address is well formed and composes back to the input |
| Utils.ParseCompose | utils.py:130 | every well-formed address parses back to itself |
| Utils.AddressShape | utils.py:130 | a string parses exactly when it is the composition of some well-formed address |
| Utils.ValidaEmail | utils.py:129-137 | the evidently intended check: accepted exactly when the input is `local@label.rest` with the pattern's character classes; otherwise 400 "E-mail inválido" |
| Utils.ValidaEmailAsWritten | utils.py:129-137 | the check as written accepts every address the intended check accepts and otherwise only text ending in a line feed; where it refuses, it answers as the intended check does |
| Utils.EmailVersionsAgree | utils.py:130-131 | on input without a line feed, the regex as written and the intended check agree |
| Utils.EmailNewlineAccepted | utils.py:130-131 | a well-formed address followed by a line feed passes the regex as written but is not an address |
| Utils.RemoveChar | utils.py:68-69 | `replace(c, "")` leaves no `c` |
| Utils.RemoveAll | utils.py:68-69 | deleting a set of characters leaves none of them and never lengthens |
| Utils.RemoveCharAfterRemoveAll | utils.py:68-69 | chained `replace` calls delete the union of their characters |
| Utils.RemoveCharAppend | utils.py:68-69 | deleting a character distributes over concatenation |
| Utils.RemoveNothing | utils.py:68-69 | deleting no characters is the identity |
| Utils.StripSeparators | utils.py:68-69 | the four `replace` calls keep exactly the characters other than space, `-`, `(` and `)` |
| Utils.StripSeparatorsDeletesSet | utils.py:68-69 | the four `replace` calls delete exactly space, `-`, `(` and `)` |
| Utils.NationalPart | utils.py:68-73 | when the text without separators starts with `+`, it is `+` followed by the result; otherwise the result is that text; no separator is left |
| Utils.WhatsappNumber | utils.py:68-77 | the number always starts with `55` and holds no separator; it is the national part itself when that starts with `55`, otherwise `55` followed by the national part |
| Utils.FormatWhatsappNumber | utils.py:66-82 | the result ends in `@s.whatsapp.net`, preceded by the normalised number |
| Utils.WhatsappKeepsFormatted | utils.py:66-82 | a number already starting with `55` and free of separators only gains the suffix |
| Utils.RemoveAllUnchanged | utils.py:68-69 | a string without the deleted characters is unchanged |
| Utils.KeepDigits | utils.py:87 | `re.sub(r'\D', '', s)` yields only digits, holds every digit character of the input and nothing else, and never lengthens |
| Utils.KeepDigitsOfDigits | utils.py:87 | an all-digit string is unchanged |
| Utils.KeepDigitsChar | utils.py:87 | on one character, a digit stays and anything else goes |
| Utils.KeepDigitsAppend | utils.py:87 | the substitution distributes over concatenation, so the digits are kept in order |
| Utils.FormatSmsNumber | utils.py:85-93 | the result is all digits; when the digits of the input start with `55` they are `55` followed by the result, otherwise the result is those digits |
| Utils.DigitsAreSeparatorFree | utils.py:68-87 | on digits and separators, deleting separators keeps exactly the digits |
| Utils.WhatsappSmsAgree | utils.py:66-93 | for a phone number made of digits, separators and an optional leading `+`, the WhatsApp number is `55` followed by the SMS number |
| Utils.CheckDigit | utils.py:110-112 | a check digit is below 10 |
| Utils.CheckDigitTextbook | utils.py:109-112 | `(10*sum) % 11`, with 10 mapped to 0, is the usual CPF rule: 0 when `sum % 11 < 2`, else `11 - sum % 11` |
| Utils.ValidaCpf | utils.py:96-126 | `False` exactly when the digits are not eleven or all equal; `True` exactly when both check digits match; otherwise a 400 "CPF inválido" |
| Utils.CompletedCpfAccepted | utils.py:96-126 | nine digits not all equal, completed with the two check digits they call for, are accepted |
| Utils.RepeatedDigitsPassChecksum | utils.py:104-106 | eleven equal digits satisfy both check equations, which is why they are refused before the checksum |
| Utils.CheckedCpfAccepted | utils.py:96-126 | eleven digits, not all equal, whose last two are the check digits, are accepted |
| Utils.CpfExample | utils.py:96-126 | `52998224725` is accepted |
| Utils.WrongLastDigitRejected | utils.py:120-124 | changing the last digit of an accepted CPF gives "CPF inválido" |
| Utils.WrongSecondCheckRejected | utils.py:120-124 | eleven digits whose last is not the second check digit give "CPF inválido" |
| Utils.ValidaCpfOfDigits | utils.py:96-126 | on eleven digits not all equal, the answer is acceptance when the last two are the check digits, "CPF inválido" otherwise |
| Utils.SameLeadSameChecks | utils.py:108-118 | the check digits depend only on the first ten digits |
| XmlRender.Replace | core/xml_render.py:93-97 | `str.replace(c, rep)` leaves no `c` when `rep` has none |
| XmlRender.EscapeText | core/xml_render.py:93-97 | the escaped text holds no `<` and no `>` |
| XmlRender.ReplaceAppend | core/xml_render.py:93-97 | single-character replacement distributes over concatenation |
| XmlRender.ReplaceAbsent | core/xml_render.py:93-97 | replacing an absent character changes nothing |
| XmlRender.EscapeChar | core/xml_render.py:93-97 | each character escapes to a non-empty replacement |
| XmlRender.EscapeTextAppend | core/xml_render.py:93-97 | the five chained replacements distribute over concatenation |
| XmlRender.EscapeTextChar | core/xml_render.py:93-97 | on one character, the chain gives that character's entity; `&` is replaced first, so later entities are not re-escaped |
| XmlRender.EscapeTextIsPerCharacter | core/xml_render.py:93-97 | the five chained replacements equal escaping each character on its own |
| XmlRender.EscapedHasNoMarkup | core/xml_render.py:93-97 | escaped text holds no `<`, `>`, `"` or `'` |
| XmlRender.PlainTextUnchanged | core/xml_render.py:93-97 | text without the five special characters is unchanged |
| XmlRender.UnescapeEscape | core/xml_render.py:93-97 | unescaping the five predefined entities of section 4.6 of XML 1.0 gives back the original text |
| XmlRender.EscapeEachGrows | core/xml_render.py:93-97 | escaping never shortens; with a special character it lengthens and introduces `&` |
| XmlRender.EscapeTwiceDiffers | core/xml_render.py:93-97 | escaping is not idempotent: on text with a special character, escaping again changes it |
| XmlRender.EscapeParam | core/xml_render.py:92-97 | a string value becomes a string that unescapes to the original; any other value is unchanged |
| XmlRender.Escape | core/xml_render.py:89-98 | the same dictionary is returned with the same keys; every value becomes its escaped form |
| XmlRender.LocalNameCut | core/xml_render.py:81-85 | a non-string tag, or a string tag without `}`, is unchanged; otherwise the tag loses exactly the text up to and including its first `}` |
| XmlRender.LocalName | core/xml_render.py:81-85 | the result is a string tag exactly when the input is, and then it is a final segment of the input |
| XmlRender.LocalNameOfQualified | core/xml_render.py:83-85 | a `{uri}local` tag becomes `local` |
| XmlRender.LocalNameSettles | core/xml_render.py:80-85 | applying the rule to a tag already reduced to its local name changes nothing |
| XmlRender.StripNamespaces | core/xml_render.py:80-85 | the walk rewrites the tags in place: afterwards every tag is the local name of its former value |
| Filters.Remap | core/filters.py:25-31 | the translated text has none of tab, line feed, form feed or carriage return, and is no longer than the input |
| Filters.RemapOne | core/filters.py:25-31 | on one character: carriage return is deleted, tab, line feed and form feed become a space, anything else stays |
| Filters.RemapAppend | core/filters.py:31 | `translate` distributes over concatenation |
| Filters.RemapUnchanged | core/filters.py:31 | text without the four characters is unchanged |
| Filters.RemapCounts | core/filters.py:25-31 | the translated length is the input length minus the number of carriage returns |
| Filters.StripLineFeed | core/filters.py:21-32 | `None` and the empty string come back as given; any other string gives a string |
| Filters.StripLineFeedShape | core/filters.py:21-32 | the result has none of the four characters, no whitespace at either end, and is the slice of the translated text left after removing only whitespace from its two ends |
| Filters.StripLineFeedIdempotent | core/filters.py:21-32 | applying the filter twice equals applying it once |
| Settings.StripEach | core/example-config.py:72 | each piece is stripped, in order |
| Settings.AssembleCorsOrigins | core/example-config.py:69-75 | a string not starting with `[` becomes a list of one more origin than it has commas, with no comma in any origin; a list, or a string starting with `[`, passes through; anything else raises ValueError |
| Settings.CorsOriginsTrimmed | core/example-config.py:72 | no origin has whitespace at either end |
| Settings.CorsRoundTrip | core/example-config.py:72 | when no piece has surrounding whitespace, joining the origins with commas gives back the setting |
| Settings.CorsTwoOrigins | core/example-config.py:72 | two comma-separated origins give the list of the two, stripped |
| Settings.AssembleDbConnectionPsql | core/example-config.py:86-94 | a given string is kept; otherwise the URI starts with `postgresql+asyncpg://` |
| Settings.AssembleDbConnection212 | core/example-config.py:102-106 | a given string is kept; otherwise the URI starts with `mssql+pyodbc://` |
| Settings.AssembleDbConnection211 | core/example-config.py:114-118 | a given string is kept; otherwise the URI starts with `mssql+pyodbc://` |
| Settings.PsqlUri | core/example-config.py:90-94 | the assembled Postgres URI starts with `postgresql+asyncpg://` |
| Settings.MssqlUri | core/example-config.py:106 | the assembled SQL Server URI starts with `mssql+pyodbc://` and ends with the driver query |
| Settings.Cut | core/example-config.py:91-93 | splitting at the first delimiter gives a prefix without it, and the two parts reassemble the input |
| Settings.ParsePsql | core/example-config.py:90-94 | whatever the Postgres reader accepts prints back as the same text through the URI template |
| Settings.ParseMssql | core/example-config.py:106 | whatever the SQL Server reader accepts prints back as the same text through the URI template |
| Settings.PsqlTextParses | core/example-config.py:90-94 | the Postgres URI reads back into user, password, host, port and database when none holds the delimiter that ends it |
| Settings.MssqlTextParses | core/example-config.py:106 | the SQL Server URI reads back into user, password, host and database, with the fixed driver query |
| Settings.PsqlRoundTrip | core/example-config.py:86-94 | the assembled Postgres URI reads back into the settings, a missing setting rendered as `None` |
| Settings.PsqlDefaultPort | core/example-config.py:93 | without a `PSQL_PORT` setting the URI names port 5432 |
| Settings.MssqlRoundTrip | core/example-config.py:102-118 | each assembled SQL Server URI reads back into its site's settings |
| Settings.IntPortHasNoSlash | core/example-config.py:83-93 | an integer port never renders with a `/` |
| Text.Strip | core/filters.py:31 | `str.strip()` returns the contiguous middle of the input; it drops only whitespace at either end and leaves none there |
| Text.StripOfStripped | core/filters.py:31 | a string without whitespace at its ends strips to itself |
| Text.StripIdempotent | core/example-config.py:72 | stripping twice equals stripping once |
| Text.Find | core/xml_render.py:83 | `str.find` returns -1 exactly when the character is absent; otherwise the index of its first occurrence |
| Text.Split | core/example-config.py:72 | `str.split(sep)` gives at least one piece, none containing the separator |
| Text.SplitCount | core/example-config.py:72 | there is one more piece than separators |
| Text.JoinSplit | core/example-config.py:72 | joining the pieces with the separator gives back the input |
| Text.NatStringValue | core/example-config.py:93 | the decimal rendering of a natural number reads back as that number |
| Text.IntStringSign | core/example-config.py:93 | a rendered integer starts with `-` exactly when it is negative |
| Text.ReadIntString | core/example-config.py:93 | reading a rendered integer gives the integer back |
| Text.IntStringInjective | core/example-config.py:93 | distinct integers render differently |

## Left out

- SQL is modelled for one table, `Car`, with the columns `id`, `model` and `year`. Other tables are not part of this model.
- Type coercion is not modelled. Values of different kinds are never equal and never ordered, so `!=` holds across kinds on a non-NULL column; a database may reject such a comparison instead, and that error is not modelled. As SQLAlchemy renders them, `== None` is `IS NULL` and `!= None` is `IS NOT NULL`; any other comparison with NULL keeps no row.
- The order the backend gives to rows with equal sort keys is not modelled. `SortBy` orders by the column and then by id; the source leaves such ties to the database.
- `Records.StrLess`, `Records.ValueLess` and `Records.Compare`: strings order by code point, NULL sorts last, and `=` and `LIKE` are case-sensitive. A locale collation, SQL Server's NULLs-first order and a case-insensitive collation are not modelled.
- `LIKE` escape characters and locale-dependent case folding for `ILIKE` are not modelled. Lower-casing covers ASCII only.
- `CrudTable.FirstWhere`: `filter_by(...).first()` in `update_multi` has no ORDER BY, so when several rows share the key value the database may load any of them. The order of `rows` stands in for that unspecified order, which decides the object `update_multi` refreshes and lists.
- `Queries.GetFirstByFilter`: among matching rows tied under the sort column, the model returns the one with the smallest id, the tie-break of `SortBy`; the database may return any of them.
- The SQLAlchemy session, the connection, and its concurrency are not modelled. A commit is an update of `Table.rows`, and a rejected commit leaves the rows as they were.
- `CrudTable.Table.UpdateMulti`: the identity map is modelled by primary key. An object the loop appends is its row's key at load time, and the answer reads every object back from the final rows, so the same row matched twice shows twice in its final state. A payload that moves a row to another `id` makes the refresh raise after the commit (`CrudTable.IdChangeRefreshFails`); expired attributes and lazy loads are otherwise not modelled.
- `CrudTable.Table.Update` requires the row to exist, because `update` receives a row already loaded by its caller.
- `CrudTable.Table.Remove` requires the row to exist. The endpoint checks this first (api/api_v1/endpoints/cars.py:49-51), and `db.delete(None)` is not modelled.
- `jsonable_encoder`, pydantic schemas, `exclude_unset` and logging are not modelled. A payload is a map from column name to value.
- Default arguments (`skip=0`, `limit=100`, `order_by="id"`, `filterby="enviado"`) are not modelled: every model call passes them. `enviado` is not a `Car` column, so a call that relied on that default would fail with `NoSuchField`.
- `generate_token` is left out, because it only draws a random number.
- `re.sub(r'\D', ...)` is modelled with ASCII digits only. Unicode decimal digits, which Python's `\D` also keeps, are not.
- `strip_line_feed`: the branch that decodes `bytes` input is not modelled, and neither are non-string, non-empty values. The model takes an optional string.
- `XmlRender.Escape`: the dictionary is a map, so the order in which keys are visited is not observable. Values nested in lists or dicts are not escaped, as in the source.
- `XmlRender.StripNamespaces`: the lxml parse, the iteration order of `getiterator`, and the `objectify.deannotate` step of `sanitize_response` are not modelled. The walk is over an array of tags, and a tag without `find` is `NotAString`.
- `Settings.AssembleCorsOrigins`: the element types of a given list are not checked, and the JSON parsing of a `[`-prefixed string, done by pydantic afterwards, is not modelled.
- `Settings.AssembleDbConnectionPsql`, `Settings.AssembleDbConnection212` and `Settings.AssembleDbConnection211`: pydantic validation of the resulting URL is not modelled. Delimiters inside the settings are not escaped by the source, so the round-trip lemmas require settings free of them.
- A setting value in `values` is a string, an integer or `None`. Other Python values are not part of this model.
- The rest of the repository (endpoints, the XML templates, the HTTP request client, `main.py`) is not part of this model.

## Findings

| source | as written | input that shows it | evidently intended | confidence | as-written member | corrected member |
|---|---|---|---|---|---|---|
| utils.py:54 | `re.match(r'^[a-zA-Z0-9_]+$', username)`: `$` also matches just before a final line feed | `user_1` followed by a line feed is accepted | only letters, digits and `_` are accepted | not executed | Utils.UsernameNewlineAccepted | Utils.ValidaUsername |
| utils.py:130-131 | `re.match` with a pattern ending in `$`, which also matches just before a final line feed | `a@b.c` followed by a line feed is accepted | only the address characters of the pattern are accepted | not executed | Utils.EmailNewlineAccepted | Utils.ValidaEmail |
