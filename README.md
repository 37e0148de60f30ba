# Pasted-text contact import of brevo-mcp, in Dafny

brevo-mcp is an MCP server that forwards tool calls to the Brevo marketing API. Nearly all of
it is plumbing: one SDK call per tool. This project models its one piece of original logic,
the bulk contact import from pasted text (`src/index.ts:3706-3825`). It has three parts:

- **`extractContactFromLine`** reads one line with four regular expressions:
  - email;
  - phone;
  - name, three alternatives tried in order;
  - company.

  It returns `null` when the line has no address. Otherwise it returns `{ email, attributes? }`, where the optional attribute keys are `FIRSTNAME`, `LASTNAME`, `SMS` and `COMPANY`.
- **`parseContactText`** splits the text on `'\n'` and drops blank lines. It trims each
  remaining line, runs the extractor on it, and collects the non-null results in order.
- **`handleBulkContactImport`** ends in one of four ways:
  - it answers that no contacts were found;
  - it prints a dry-run preview;
  - it submits one import request and reports the process id;
  - it rethrows the failure of that request with a fixed prefix.

Layout, one file per part (`text.dfy` also holds the small `Wrappers` module):

| file | module | what |
|---|---|---|
| `text.dfy` | `Wrappers`, `Text` | `Option`; ECMAScript white space (`\s`, `trim`), `split`, `join`, decimal numbers |
| `patterns.dfy` | `Patterns` | each regular expression as a backtracking matcher at a start index, beside a declarative predicate for the language it accepts, with soundness and completeness lemmas; leftmost search, as `String.prototype.match` does |
| `contact.dfy` | `Contacts` | the contact record, the extractor, and what it promises |
| `json.dfy` | `Json` | `JSON.stringify(value, null, 2)` for strings, arrays and objects; escaping and its inverse |
| `bulk_import.dfy` | `BulkImport` | `parseContactText` as a loop, `handleBulkContactImport` with the import call as a parameter |
| `contact_cases.dfy` | `ContactCases` | two concrete lines whose result is surprising |

Semantics of the model:

- Regular-expression semantics are modelled exactly. The email address is the leftmost
  match, read as far as backtracking allows: the top-level domain is the last `.` after which
  two or more letters follow. The company pattern is case-insensitive. When the white space
  after `at` or `@` is followed by `,`, `<`, `@` or the end of the line, the white-space run
  gives back its last character, which then becomes the group; this needs a run of two or
  more characters, so with a single space the pattern fails at that keyword.
- `\s` and `trim()` use the full ECMAScript set of white-space and line-terminator characters.
- The `attributes` object keeps the order in which keys are assigned: FIRSTNAME, LASTNAME,
  SMS, COMPANY. The dry-run text depends on that order.
- The import call is a parameter of the handler, a function from the request to
  `Created(processId)` or `Threw(message)`. The handler also returns the list of requests it
  handed to that function, so "no call on an empty batch or a dry run" can be stated.

Behaviour of the code worth knowing:

- Contacts are not deduplicated, although the tool's description says the import "checks
  duplicates" (`src/index.ts:858`). `BulkImport.NoDeduplication` proves that a line given
  twice yields two contacts.
- A line that is only an address gets attributes: its local part becomes FIRSTNAME.
  `Contacts.BareAddress` proves it.
- Empty attribute values are stored in two cases:
  - SMS is set even when the phone match held only separators;
  - COMPANY is set even when the trimmed capture is empty.

  Only FIRSTNAME and LASTNAME are guarded by a truthiness test.

## Model

| member | source | states |
|---|---|---|
| Text.TrimSlice | src/index.ts:3755 | `trim()` removes a white-space prefix and suffix and nothing else; the result neither starts nor ends with white space |
| Text.TrimEmptyIff | src/index.ts:3755 | the blank-line filter drops a line exactly when every character of it is white space |
| Text.TrimIdempotent | src/index.ts:3758 | `trim()` is idempotent: trimming an already trimmed line gives it back unchanged |
| Text.TrimChars | src/index.ts:3758 | trimming adds no character |
| Text.Split | src/index.ts:3755 | `split('\n')` gives at least one piece, no piece holds the separator, and joining the pieces with it gives back the text |
| Text.SplitSpacesFirst | src/index.ts:3790 | the first piece of `split(/\s+/)` is the text's leading run of non-space characters; there is one piece exactly when the text has no white space, and it is then the whole text |
| Text.SplitSpacesNoSpace | src/index.ts:3790 | no piece of `split(/\s+/)` holds white space |
| Text.JoinIsInterleave | src/index.ts:3793 | `join(sep)` gives the pieces in order with exactly one copy of `sep` between each two consecutive ones |
| Text.SplitSpacesRoundTrip | src/index.ts:3790 | between consecutive pieces of `split(/\s+/)` lies a non-empty run of white space, and putting those runs back between the pieces gives the text again |
| Text.SplitSpacesInnerNonEmpty | src/index.ts:3790 | only the first and the last piece can be empty, and the first is not when the text starts with a character other than white space |
| Text.SplitSpacesOfTrimmed | src/index.ts:3789-3790 | splitting a trimmed, non-empty name gives no empty piece |
| Text.SplitSpacesOfJoin | src/index.ts:3790-3793 | splitting words joined by single spaces gives back the words |
| Text.DecimalString | src/index.ts:3723 | a count is printed as decimal digits without leading zeros |
| Text.DecimalRoundTrip | src/index.ts:3743 | the printed count reads back as the count |
| Patterns.Search | src/index.ts:3773 | the first element of a global `match` is the match at the leftmost index where the expression matches |
| Patterns.DotBacktrack | src/index.ts:3770 | the dot the domain run backtracks to lies inside the run and is followed by two letters |
| Patterns.DotBacktrackLast | src/index.ts:3770 | backtracking settles on the last such dot, and fails only when the domain run holds none |
| Patterns.EmailAtSound | src/index.ts:3770 | what the email matcher returns is accepted by `[a-zA-Z0-9._%+-]+@[a-zA-Z0-9.-]+\.[a-zA-Z]{2,}` and cannot be extended by a letter |
| Patterns.EmailAtLongest | src/index.ts:3770 | whenever the email expression accepts text at an index, the matcher matches there, at least as far |
| Patterns.PhoneAtSound | src/index.ts:3771 | what the phone matcher returns is accepted by `\+?[\d\s\-\(\)]{10,}` and is not followed by a phone character |
| Patterns.PhoneAtLongest | src/index.ts:3771 | whenever the phone expression accepts text at an index, the matcher matches there, at least as far |
| Patterns.NameHead | src/index.ts:3787 | `^([^<@]+)<?` matches exactly when the line does not start with `<` or `@` (nor is empty), and captures up to the first `<` or `@` |
| Patterns.QuotedAt | src/index.ts:3787 | `["']([^"']+)["']` at an index captures the quote-free text up to the next quote of either kind, exactly when that text is non-empty |
| Patterns.ParenAt | src/index.ts:3787 | `\(([^)]+)\)` at an index captures the text up to the next `)`, exactly when that text is non-empty |
| Patterns.GiveBackSpaces | src/index.ts:3815 | after the greedy `\s+`, the company group starts at the first index backtracking reaches where a character other than `,`, `<` or `@` follows: no later start inside the white-space run would work; the group runs up to the next such character or the end, and the match fails only when no start works |
| Patterns.CompanyAtSound | src/index.ts:3815 | what the company matcher returns is accepted by `(?:at\|@)\s+([^,<@]+)` case-insensitively, its group running up to a `,`, `<`, `@` or the end |
| Patterns.CompanyAtComplete | src/index.ts:3815 | whenever the company expression accepts text at an index, the matcher matches there |
| Contacts.StripSeparators | src/index.ts:3806 | `replace(/[\s\-\(\)]/g, '')` leaves no white space, `-`, `(` or `)` |
| Contacts.ExtractContact | src/index.ts:3768-3825 | null exactly when the email expression finds nothing; otherwise the email is the leftmost match and holds an `@`; an empty attributes object is never attached; each attribute is the value its own rule gives |
| Contacts.EmailHasAt | src/index.ts:3770-3778 | the extracted address contains an `@` |
| Contacts.ExtractNoneIffNoEmail | src/index.ts:3773-3776 | a line yields null exactly when no substring of it is accepted by the email expression |
| Contacts.NoAtNoContact | src/index.ts:3773-3776 | a line without `@` yields null |
| Contacts.EmailIsLeftmostLongest | src/index.ts:3770-3778 | the email is accepted by the expression, starts at its leftmost match, and is the longest accepted text there; later addresses are ignored |
| Contacts.StripPhoneRun | src/index.ts:3806 | stripping separators from a run of phone characters leaves its digits in order |
| Contacts.DigitsAreDigits | src/index.ts:3806 | what stripping leaves of a phone run is digits only |
| Contacts.SmsIsLeftmostPhoneDigits | src/index.ts:3771-3812 | SMS is set exactly when the phone expression matches; it is then `+` when the leftmost run started with one, followed by that run's digits in order; it may be empty; both arms of the `+` test store it |
| Contacts.NamePartsSpec | src/index.ts:3789-3796 | FIRSTNAME candidate is the trimmed name's first word, empty only for a blank name; LASTNAME candidate is non-empty exactly when the trimmed name has inner white space, and is exactly the remaining words with one space between each two (`slice(1).join(' ')`); no last name without a first name |
| Contacts.NameFromLeadingText | src/index.ts:3787-3804 | for a line not starting with `<` or `@`, FIRSTNAME is the first word of the trimmed text before the first `<` or `@`, set exactly when that text is not blank; LASTNAME is set exactly when it has inner white space, and is then the remaining words with one space between each two |
| Contacts.NameFromQuotes | src/index.ts:3787 | for a line starting with `<` or `@`, the name is the text inside the leftmost quotes |
| Contacts.QuotedSearchFinds | src/index.ts:3787 | the quote alternative matches only where its expression accepts text |
| Contacts.NameFromParens | src/index.ts:3787 | for a line starting with `<` or `@` and without quoted text, the name is the text inside the leftmost parentheses |
| Contacts.CompanyFoundIff | src/index.ts:3815-3818 | COMPANY is set exactly when the company expression matches somewhere in the line |
| Contacts.CompanyIsLeftmostPhrase | src/index.ts:3815-3818 | COMPANY is the trimmed group of the leftmost company match, which runs to the next `,`, `<` or `@`; it holds none of them and no outer white space |
| Contacts.TrimKeepsClass | src/index.ts:3817 | trimming keeps only characters of the untrimmed capture |
| Contacts.BareAddress | src/index.ts:3768-3825 | a line that is only an address gives that address, its local part as FIRSTNAME, and no LASTNAME and no COMPANY |
| Contacts.EmailShapeNoSpace | src/index.ts:3770 | an address the email expression accepts holds no white space |
| Contacts.BareAddressName | src/index.ts:3787-3797 | the name of a bare address is its local part, as FIRSTNAME only |
| Contacts.CompanyNeedsSpace | src/index.ts:3815 | a line on which the company expression matches holds white space |
| ContactCases.ParenLineName | src/index.ts:3787 | on `Jane Smith (jane@example.com)` the leading-text alternative wins and captures `Jane Smith (jane` |
| ContactCases.ParenNameParts | src/index.ts:3789-3796 | that name splits into `Jane` and `Smith (jane` |
| ContactCases.ParenLineNames | src/index.ts:3787-3804 | that line gets FIRSTNAME `Jane` and LASTNAME `Smith (jane` |
| ContactCases.PatLineMatch | src/index.ts:3815 | on `Pat Smith <p@x.co>` the company expression matches at the `at` inside `Pat` |
| ContactCases.PatLineGroup | src/index.ts:3815 | its group there is `Smith ` |
| ContactCases.CompanyInsideWord | src/index.ts:3815-3818 | that line gets COMPANY `Smith` |
| Json.EscapeChar | src/index.ts:3723 | a character is written as itself exactly when it is not a quote, backslash or control character; no escape holds a control character |
| Json.Escape | src/index.ts:3723 | an escaped string holds no control character, and a string without special characters is written unchanged |
| Json.UnescapeEscape | src/index.ts:3723 | reading an escaped string back as a JSON string literal gives the string |
| Json.Indent | src/index.ts:3723 | the indent of nesting depth d is 2d spaces |
| Json.ArrayHoldsElements | src/index.ts:3723 | a non-empty array's text holds its elements' text |
| Json.ObjectHoldsMembers | src/index.ts:3723 | a non-empty object's text holds its members' text |
| Json.ElementsHold | src/index.ts:3723 | every element of an array is written inside the array's text |
| Json.ContactTextHasEmail | src/index.ts:3723 | a contact's text holds its `email` member |
| Json.BatchHoldsContact | src/index.ts:3723 | the batch text holds every contact's text |
| Json.BatchTextHasEveryEmail | src/index.ts:3723 | the batch text holds every contact's `email` member |
| Json.EmailShapeIsPlain | src/index.ts:3770 | an accepted address holds no character JSON escapes |
| Json.FirstEmailIsPlain | src/index.ts:3770-3778 | the extracted address holds no character JSON escapes |
| Json.PlainEmailMember | src/index.ts:3723 | such an address is printed verbatim as `"email": "<address>"` |
| BulkImport.Lines | src/index.ts:3755 | the lines of the text, joined with line feeds, give back the text |
| BulkImport.NonBlank | src/index.ts:3755 | the filter keeps at most as many lines as it is given |
| BulkImport.NonBlankKeeps | src/index.ts:3755 | the filter keeps exactly the lines whose trim is non-empty, and nothing else |
| BulkImport.ParseContactText | src/index.ts:3753-3765 | the loop's batch is the extractor's non-null results on the trimmed non-blank lines, in order |
| BulkImport.ExtractAllStep | src/index.ts:3757-3762 | one more line appends that line's contact, if any, at the end |
| BulkImport.ExtractAllAppend | src/index.ts:3757-3762 | lines are read independently: the batch of concatenated lines is the concatenation of their batches |
| BulkImport.ExtractAllLength | src/index.ts:3757-3762 | at most one contact per line |
| BulkImport.ExtractAllIndices | src/index.ts:3757-3762 | each contact comes from its own line, in strictly increasing line order, and every line that yields a contact contributes it |
| BulkImport.ExtractAllSingle | src/index.ts:3757-3762 | a single line gives its contact, if any |
| BulkImport.NoDeduplication | src/index.ts:3757-3762 | a line given twice yields its contact twice |
| BulkImport.KeptLineYields | src/index.ts:3755-3762 | filtering one line first changes nothing when a blank line yields nothing |
| BulkImport.BlankLinesYieldNothing | src/index.ts:3755-3762 | dropping blank lines first changes nothing when blank lines yield nothing |
| BulkImport.EmptyLineNoContact | src/index.ts:3773-3776 | the empty line yields no contact |
| BulkImport.ParseAllLines | src/index.ts:3755-3762 | the blank-line filter is redundant: parsing every line gives the same batch |
| BulkImport.ParseLength | src/index.ts:3753-3765 | at most one contact per non-blank line |
| BulkImport.NoAtEmptyBatch | src/index.ts:3753-3776 | a text without `@` gives an empty batch |
| BulkImport.BatchEmailsArePlain | src/index.ts:3723 | every contact's address is printed without escapes |
| BulkImport.HandleBulkContactImport | src/index.ts:3706-3750 | the import call is made, once, exactly when the batch is non-empty and it is not a dry run; empty batch and dry-run replies; the request carries the batch unchanged, `updateExisting` (default true) and `[listId]` only for a truthy `listId`; success reply or `Bulk import failed: ` plus the error's message |
| BulkImport.DryRunListsEveryEmail | src/index.ts:3719-3724 | the dry-run reply holds `"email": "<address>"` for every contact |
| BulkImport.ReplyCountReadsBack | src/index.ts:3723 | the dry-run reply has the count right after `DRY RUN: Would import `, as digits ended by a space, and they read back as the batch size |
| BulkImport.SuccessTextHasProcessId | src/index.ts:3740-3745 | the success reply holds the returned process id and the count |

## Left out

- Tool registration, dispatch and the other per-category handlers: each is one SDK call with no logic of its own.
- Server lifecycle: API-key set-up, stdio transport, the signal handler and `run`. This is I/O.
- The network call `contactsApi.importContacts`. It is a function parameter. Its result is a process id given as the text it prints, or the message of the error it throws. For a non-`Error` value, that message is the value's `String(...)`.
- Errors thrown by parsing itself are not modelled; the handler only wraps the import call's error. One example is a `text` argument that is not a string.
- BulkImport.BulkImportArgs: `text` is a string. `listId` is an integer or absent; a NaN or non-numeric `listId` is not modelled. `updateExisting` and `dryRun` are booleans or absent, and their defaults apply only to an absent value. Truthiness of non-boolean values is not modelled.
- Json.Value: only strings, arrays and objects, which is all a contact batch holds.
- Character units: JavaScript strings are UTF-16 code units, and the model's characters are Unicode scalar values. A line with a lone surrogate cannot be written. Character positions count scalar values, which matters only outside the Basic Multilingual Plane. For the same reason, the `\u` escape that `JSON.stringify` writes for a lone surrogate has no counterpart.
- The compiled copy `build/index.js` and its type declarations repeat the same code; they are not modelled a second time.
- The helper scripts that start the server in a child process are not part of this model.
