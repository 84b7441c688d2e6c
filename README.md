# pynemail core, modelled in Dafny

pynemail is a small terminal mail reader. Its core is the `Email` class.
An `Email` lazily fetches, parses and caches one message's headers, full
message, plain-text body, sender, flags and attachments. It has two
backends:

- `ImapEmail` talks to an open IMAP session.
- `MaildirEmail` reads one file of a Maildir.

Next to the class are:

- the flag vocabularies and their mapping tables;
- the parsers that turn an IMAP `FETCH (FLAGS)` response or a Maildir file
  name into flags;
- the two mailbox listings;
- the UI's text-layout helpers (centring a window, fitting a string to a
  width, wrapping text into fixed-width lines).

The project models:

- `pynemail/email.py`
- `pynemail/imapclient.py`
- `pynemail/maildirclient.py`
- `pynemail/ui/utils.py`

Modules:

| module | file | contents |
|---|---|---|
| `Flags` | `flags.dfy` | `EmailFlag`, and which attribute names the enum defines |
| `Imap` | `imap.dfy` | `ImapFlag`, `MAP_FLAG_TO_IMAP`, `parse_imap_flags`; the IMAP session as a class with the server's flag tokens and a log of the commands sent |
| `Maildir` | `maildir.dfy` | `MaildirFlag`, `MAP_FLAG_TO_MAILDIR`, `parse_maildir_flags` (as a loop proved against a specification function), and the stable newest-first sort of `get_mail_from_maildir` |
| `Mail` | `mail.dfy` | `Attachment` and `Email` as classes whose methods update their caches in place, and `get_mail_from_imap` and `get_mail_from_maildir` |
| `Layout` | `layout.dfy` | `center`, `fit_text_to_cols`, `_split_line_at_space_if_possible`, `wrap_text_to_cols` |
| `Text`, `Seqs`, `Mime`, `Exceptions`, `Wrappers` | | the Python string operations the code relies on, a filter over sequences, parsed messages as values, the exceptions the code can raise, and `Option`/`Result` |

How the Python structure maps onto Dafny:

- **Backends.** The two Python subclasses become the two cases of a
  `Backend` datatype. It is held in a constant field of one `Email` class.
  Each overridden member dispatches on it.
- **Flag lists.** Python lets a flag list hold members of any of the three
  flag enums. The model's `FlagMember` datatype keeps that freedom.
- **Exceptions.** An exception becomes a `Failure` of `Result`. It carries
  the exception class and, where the code passes one, the message.

### Behaviour the code has as written

Three behaviours are proved and kept as written:

- **`unread()` is always true, and `important()`, `replied()`, `deleted()`
  and `draft()` are always false.** These tests look for `EmailFlag`
  members. The backends' `flags()` only ever return `ImapFlag` or
  `MaildirFlag` members.
- **IMAP `body()` stores `\Seen` on every call.** It is the consequence of
  `unread()` always being true.
- **Maildir `body()` always raises.** The flag parser raises first, or else
  `set_flag` raises: the Maildir backend does not override it, so the base
  class raises `NotImplementedError`.

`set_flag` does not clear the IMAP flags cache. After it, the flags cached
before the `STORE`, if any, stay until `clear_flags()`, `clear()` or an IMAP
message fetch (pynemail/imapclient.py:53) drops them. The model keeps that
too.

## Model

| member | source | states |
|---|---|---|
| Flags.Named | pynemail/email.py:8-15 | `EmailFlag` defines exactly the members `ANSWERED`, `SEEN`, `FLAGGED`, `DELETED` and `DRAFT` |
| Flags.MapKeysAsWritten | pynemail/imapclient.py:19-25 | the keys `EmailFlag.REPLIED` and `EmailFlag.READ` of both flag maps name no member of `EmailFlag`, while `ANSWERED` and `SEEN` do |
| Imap.FlagToImapIsInjective | pynemail/imapclient.py:19-25 | every `EmailFlag` has an IMAP flag, distinct flags map to distinct IMAP flags, and `\Recent` is never a target, so the `assert flag in MAP_FLAG_TO_IMAP` of `set_flag` always holds |
| Imap.AllImapFlagsComplete | pynemail/imapclient.py:10-17 | iterating `ImapFlag` visits every member once, in declaration order |
| Imap.ParseImapFlags | pynemail/imapclient.py:28-34 | the loop over `ImapFlag` returns exactly the reference filter `ImapFlagsIn` of the parsed tokens |
| Imap.ImapFlagsInMembership | pynemail/imapclient.py:31-33 | a flag is in the parsed list if and only if its token was sent |
| Imap.ImapFlagsInOrdered | pynemail/imapclient.py:31-33 | the parsed list follows declaration order strictly, so it has no duplicates |
| Imap.ImapFlagsInIgnoresOrder | pynemail/imapclient.py:28-34 | the result depends only on which tokens were sent, not on their order or repetition |
| Imap.ImapFlagsIn | pynemail/imapclient.py:28-34 | the reference result of `parse_imap_flags`: no more entries than there are `ImapFlag` members, each one a flag whose token was sent (`Imap.ImapFlagsInOrdered` adds that there is at most one per flag) |
| Imap.StoreFlags | pynemail/imapclient.py:63-67 | after `+FLAGS` the token is present; after `-FLAGS` it is absent; every other token is present exactly when it was before |
| Imap.ImapConnection.constructor | pynemail/imapclient.py:71-80 | a selected session (what `imap_client` yields after `login` and `select`) whose search results are all messages it holds, with an empty command log |
| Imap.ImapConnection.FetchHeader | pynemail/imapclient.py:48-50 | returns the message's header block and logs one `FETCH (RFC822.HEADER)` |
| Imap.ImapConnection.FetchMessage | pynemail/imapclient.py:52-55 | returns the whole message and logs one `FETCH (RFC822)` |
| Imap.ImapConnection.FetchFlags | pynemail/imapclient.py:57-61 | returns the message's flag tokens and logs one `FETCH (FLAGS)` |
| Imap.ImapConnection.Store | pynemail/imapclient.py:67 | changes only that message's tokens, as `StoreFlags` says, keeps the session valid and logs the `STORE` |
| Imap.ImapConnection.Search | pynemail/imapclient.py:85 | returns the server's identifiers and logs `SEARCH ALL` |
| Maildir.FlagToMaildirIsInjective | pynemail/maildirclient.py:23-29 | every `EmailFlag` has a Maildir flag, distinct flags map to distinct Maildir flags, and `FORWARDED` is never a target |
| Maildir.AllMaildirFlagsComplete | pynemail/maildirclient.py:13-20 | iterating `MaildirFlag` visits every member once, in declaration order |
| Maildir.CharsAreDistinct | pynemail/maildirclient.py:13-20 | no two Maildir flags share a letter |
| Maildir.ParseMaildirFlags | pynemail/maildirclient.py:36-45 | the method, including its error paths, returns exactly the reference `InfoFlags` of the file name |
| Maildir.MaildirFlagsInMembership | pynemail/maildirclient.py:42-44 | a flag is returned if and only if its letter occurs in the flag characters |
| Maildir.MaildirFlagsInOrdered | pynemail/maildirclient.py:42-44 | the flags come in declaration order, without duplicates |
| Maildir.MaildirFlagsInIgnoresOrder | pynemail/maildirclient.py:42-44 | only which letters occur matters, not their order or repetition |
| Maildir.InfoFlagsOfName | pynemail/maildirclient.py:37-40 | for `unique:version,chars`, the result is decided by the version and the characters alone |
| Maildir.InfoFlagsWithoutColon | pynemail/maildirclient.py:37 | a name without `:` raises `IndexError` |
| Maildir.InfoFlagsFieldCount | pynemail/maildirclient.py:38 | an info part that does not split into exactly two fields at `,` raises `ValueError` |
| Maildir.VersionTwo | pynemail/maildirclient.py:39-40 | version `2` parses the characters, and version `3` raises `UnknownMaildirFlag('3')` |
| Maildir.LettersRoundTrip | pynemail/maildirclient.py:42-45 | writing flags in declaration order as letters and parsing them gives the same flags back |
| Maildir.InfoFlagsRoundTrip | pynemail/maildirclient.py:36-45 | a file name `unique:2,` followed by the letters of any ordered flag list parses back to that list |
| Maildir.InfoFlagsIgnoresLetterOrder | pynemail/maildirclient.py:36-45 | two `:2,` names with the same set of letters parse to the same flags, and parsing succeeds |
| Maildir.InfoFlagsNoLettersExample | pynemail/maildirclient.py:36-45 | `unique:2,` parses to no flags |
| Maildir.InfoFlagsVersionExample | pynemail/maildirclient.py:39-40 | `unique:3,S` raises `UnknownMaildirFlag('3')` |
| Maildir.InfoFlags | pynemail/maildirclient.py:36-45 | the reference result of `parse_maildir_flags`: it raises only `IndexError`, `ValueError` or `UnknownMaildirFlag`, and returns no more entries than there are `MaildirFlag` members (`Maildir.MaildirFlagsInOrdered` adds that there is at most one per flag) |
| Maildir.InfoPartFlags | pynemail/maildirclient.py:38-40 | an info part that does not split at `,` into exactly two fields raises `ValueError`; otherwise it raises only `ValueError` or `UnknownMaildirFlag`, and returns no more entries than there are `MaildirFlag` members |
| Maildir.VersionedFlags | pynemail/maildirclient.py:39-40 | the flags are read if and only if the version parses as the integer 2; a version that is not an integer raises `ValueError`, any other integer raises `UnknownMaildirFlag` with the version text; every returned flag has its letter among the flag letters |
| Maildir.MaildirFlagsIn | pynemail/maildirclient.py:41-45 | the loop's result: no more entries than there are `MaildirFlag` members, each one a flag whose letter occurs in the flag letters |
| Maildir.Listing | pynemail/maildirclient.py:90-91 | the files of `new/`, marked new, then those of `cur/`, marked not new, each in scan order |
| Maildir.InsertNewestFirst | pynemail/maildirclient.py:92 | one insertion step adds exactly the new element |
| Maildir.InsertKeepsOrder | pynemail/maildirclient.py:92 | inserting into a newest-first sequence keeps it newest first |
| Maildir.SortNewestFirst | pynemail/maildirclient.py:92 | `sorted(..., reverse=True)` returns a permutation whose modification times never increase |
| Maildir.InsertKeepsTies | pynemail/maildirclient.py:92 | an inserted element goes after every element with the same modification time |
| Maildir.InsertBehindKeepsTies | pynemail/maildirclient.py:92 | inserting behind the first element keeps the tie order the tail already had |
| Maildir.SortKeepsTies | pynemail/maildirclient.py:92 | the sort is stable: elements with equal modification times keep their relative order |
| Maildir.ListingOrder | pynemail/maildirclient.py:89-92 | the mailbox comes out newest first, is a permutation of the listing, and among equally old files those of `new/` precede those of `cur/`, each in scan order |
| Text.Split | pynemail/email.py:27 | `str.split(sep)` gives at least one piece, no piece holds the separator, and the pieces join back to the string |
| Text.SplitJoin | pynemail/email.py:30 | splitting a join of separator-free pieces gives the pieces back |
| Text.Strip | pynemail/email.py:29 | `str.strip()` is a slice of the string with only whitespace cut off on either side and no whitespace left at either end; an already-stripped string is unchanged |
| Text.SliceIndex | pynemail/email.py:129 | how a Python slice bound is normalised: negative bounds count from the end, out-of-range bounds are clamped |
| Text.StripQuotesOfQuoted | pynemail/email.py:32-33 | removing the surrounding double quotes of `"x"` gives `x` |
| Text.PyIntOfDigits | pynemail/maildirclient.py:39 | `int()` of a string of ASCII digits is its decimal value |
| Text.PyInt | pynemail/maildirclient.py:39 | `int()` of a blank string raises, and a string it accepts ends, once stripped, in a digit |
| Mail.DisplayNameOfLastWord | pynemail/email.py:118-119 | with a space before a final space-free word, the display name is everything before that space, stripped |
| Mail.SenderOfLastWord | pynemail/email.py:115-123 | for `From: NAME ADDRESS` with a space-free address, the sender is `NAME` stripped and unquoted, or `IndexError` when `NAME` strips to nothing |
| Mail.SenderOfQuotedName | pynemail/email.py:115-123 | for `From: "Name" <address>`, the sender is `Name` without its quotes |
| Mail.SenderOfPlainName | pynemail/email.py:115-123 | for `From: Name <address>`, the sender is `Name` |
| Mail.SenderOfBareAddress | pynemail/email.py:115-123 | a `From` field without spaces is the sender itself |
| Mail.SenderOfNoName | pynemail/email.py:115-121 | a `From` field whose words before the last are all whitespace raises `IndexError` |
| Mail.SenderOf | pynemail/email.py:115-123 | the reference result of `sender()`: it raises only `TypeError` (no `From` field) or `IndexError`, an empty `From` field raises `IndexError`, and a sender is never longer than the `From` field |
| Text.StripQuotes | pynemail/email.py:120-121 | the quote removal of `sender()` (and of the file name at pynemail/email.py:32-33): the value is unchanged, or it is the value with one surrounding pair of double quotes removed (a lone `"` gives the empty string); a value not starting with `"` is unchanged; every character of the result comes from the value |
| Mail.DisplayName | pynemail/email.py:117-119 | the display name is never longer than the `From` field, and strictly shorter when the field has a space |
| Mail.DateOf | pynemail/email.py:128-129 | the `Date` field less its last five characters; `TypeError` exactly when the field is missing |
| Mail.DateDropsZone | pynemail/email.py:128-129 | a date followed by a five-character zone gives the date back |
| Mail.FilenameInSkips | pynemail/email.py:27-28 | disposition segments without `=` are skipped |
| Mail.FilenameOfAttachment | pynemail/email.py:25-38 | `attachment; filename="NAME"` and `attachment; filename=NAME` name the file `NAME` |
| Mail.FilenameOfValue | pynemail/email.py:27-34 | `attachment; filename=VALUE` names the file `VALUE` without its surrounding quotes |
| Mail.FilenameOfInline | pynemail/email.py:36-37 | a disposition without any `=` names the empty file name |
| Mail.FilenameIn | pynemail/email.py:27-37 | the reference result of the segment scan: it raises only `ValueError` or `IndexError`, and a file name never contains `=` |
| Mail.FilenameOf | pynemail/email.py:25-38 | the reference result of `filename()`: `AttributeError` exactly when the part has no `Content-Disposition`, and a file name never contains `=` |
| Mail.ScanSegments | pynemail/email.py:27-37 | the loop over the `;` segments returns exactly what the reference scan `FilenameIn` gives |
| Mail.AttachmentPartsSelect | pynemail/email.py:45-47 | a payload part is kept if and only if its disposition starts with `attachment`, so `inline` parts are dropped |
| Mail.AttachmentParts | pynemail/email.py:47 | the selected parts are payload parts whose disposition starts with `attachment`, and there are no more of them than parts |
| Mail.IsAttachmentPart | pynemail/email.py:47 | a part is selected only when its `Content-Disposition` is present and its first ten characters are `attachment`; an `inline` part is never selected |
| Mail.MessageAttachmentParts | pynemail/email.py:109-112 | a message that is not multipart has no attachments; otherwise they are the parts selected at pynemail/email.py:47, payload parts whose disposition starts with `attachment`, no more of them than parts |
| Mail.BodyText | pynemail/email.py:100-104 | the body is the plain-text part's content when there is one, and the fixed error text otherwise |
| Mail.FileFlags | pynemail/maildirclient.py:74-77 | a Maildir file's flags are read exactly when its name parses, with the parser's error otherwise; they are never an `EmailFlag` and there is one per parsed `MaildirFlag` |
| Mail.Attachment.constructor | pynemail/email.py:20-23 | a new attachment wraps the part with nothing cached |
| Mail.Attachment.Filename | pynemail/email.py:25-38 | returns the cached name or what `ScanSegments` finds, with the `AttributeError`, `ValueError` and `IndexError` cases; caches only a success |
| Mail.Attachment.Content | pynemail/email.py:40-43 | returns the part's content and caches it |
| Mail.GetAttachments | pynemail/email.py:45-47 | one fresh attachment per attachment part, in payload order |
| Mail.Email.ForImap | pynemail/imapclient.py:42-46 | an IMAP email for a message the server holds, with every cache empty |
| Mail.Email.ForMaildir | pynemail/maildirclient.py:53-58 | a Maildir email for a file, with every cache empty |
| Mail.Email.AfterMessage | pynemail/email.py:91-94 | after `message()` the message is cached; only the IMAP fetch (`imapclient.py:53`) drops the flags cache, and nothing else changes |
| Mail.Email.MessageFetches | pynemail/imapclient.py:52-55 | `message()` sends one `FETCH (RFC822)` exactly when an IMAP email has no cached message, and nothing otherwise |
| Mail.Email.AfterHeaders | pynemail/email.py:86-89 | after `headers()` the headers are cached; for Maildir (`maildirclient.py:67-68`) the message is cached too; nothing else changes |
| Mail.Email.HeaderFetches | pynemail/imapclient.py:48-50 | `headers()` sends one `FETCH (RFC822.HEADER)` exactly when an IMAP email has no cached headers, and nothing otherwise |
| Mail.Email.Message | pynemail/email.py:91-94 | returns the backend's message; the caches become `AfterMessage` of the old ones, and IMAP sends exactly `MessageFetches` (at most one fetch between invalidations) |
| Mail.Email.Headers | pynemail/email.py:86-89 | returns the backend's headers; the caches become `AfterHeaders` of the old ones, and IMAP sends exactly `HeaderFetches` |
| Mail.Email.Flags | pynemail/email.py:134-142 | returns the cached flags, or else the backend's; caches them only on success; never holds an `EmailFlag`; IMAP fetches `(FLAGS)` only when nothing was cached |
| Mail.Email.ReadFlags | pynemail/imapclient.py:57-61 | the uncached flags are the parsed server tokens, or the parsed file name for Maildir, with one `FETCH (FLAGS)` for IMAP |
| Mail.Email.HasFlag | pynemail/email.py:74-84 | `important()`, `replied()`, `deleted()` and `draft()` test membership in `flags()`, and the answer is always false; fails exactly when `flags()` does |
| Mail.Email.Unread | pynemail/email.py:71-72 | `unread()` tests that `SEEN` is absent from `flags()`, and the answer is always true; fails exactly when `flags()` does |
| Mail.Email.SetFlag | pynemail/imapclient.py:63-67 | IMAP stores `+FLAGS` or `-FLAGS` with the mapped token and changes nothing else; Maildir raises `NotImplementedError('Email.set_flag()')` |
| Mail.Email.Body | pynemail/email.py:96-105 | IMAP returns the plain-text body after a `STORE +FLAGS \Seen` on every call; the flags read by `unread()` stay cached unless the body had to fetch the message, which drops them; Maildir always fails and only its flags cache can change |
| Mail.Email.BodyPart | pynemail/email.py:99-105 | the body is the message's plain part, or the fixed error text when there is none, computed once and cached; the message is read only when no body was cached |
| Mail.Email.Attachments | pynemail/email.py:107-113 | the message's attachment parts, each wrapped in a valid attachment; on the first call fresh ones with nothing cached, later the cached ones; none for a single-part message; only the attachments cache and what `message()` changes change |
| Mail.Email.Sender | pynemail/email.py:115-123 | the sender computed from the headers' `From` field, cached on success; when nothing was cached the other caches become `AfterHeaders` of the old ones and IMAP sends `HeaderFetches`, otherwise nothing changes |
| Mail.Email.To | pynemail/email.py:125-126 | the headers' `To` field, or none; the caches become `AfterHeaders` of the old ones, and IMAP sends exactly `HeaderFetches` |
| Mail.Email.Subject | pynemail/email.py:131-132 | the headers' `Subject` field, or none; the caches become `AfterHeaders` of the old ones, and IMAP sends exactly `HeaderFetches` |
| Mail.Email.Date | pynemail/email.py:128-129 | the headers' date without its zone; the caches become `AfterHeaders` of the old ones, and IMAP sends exactly `HeaderFetches` |
| Mail.Email.ClearFlags | pynemail/email.py:161-163 | empties the flags cache and nothing else |
| Mail.Email.Clear | pynemail/email.py:152-159 | empties every cache; the Maildir override also forgets the modification time |
| Mail.Email.Mtime | pynemail/maildirclient.py:79-82 | a Maildir email's file modification time, cached; an IMAP email has no such member |
| Mail.Email.Lt | pynemail/maildirclient.py:60-62 | compares modification times and leaves both emails with their modification time cached; `AssertionError` against an IMAP email, and `TypeError` on an IMAP email, which defines no order, without touching either cache |
| Mail.Email.BackendFlags | pynemail/imapclient.py:57-61 | reading an IMAP email's flags never fails; a Maildir email's (`flags()` at pynemail/maildirclient.py:74-77) fails only when its file name does not parse; the flags read never hold an `EmailFlag` |
| Mail.BackendFlagsAreNeverCanonical | pynemail/email.py:71-84 | no backend ever reports an `EmailFlag`, so every `EmailFlag` membership test is false |
| Mail.ImapBackendFlags | pynemail/imapclient.py:57-61 | an IMAP email reports a flag if and only if the server holds its token |
| Mail.GetMailFromImap | pynemail/imapclient.py:83-87 | one fresh, empty email per identifier of `SEARCH ALL`, last identifier first |
| Mail.SortedEmail | pynemail/maildirclient.py:60-62 | an email of the sorted listing; being compared by the sort caches its modification time |
| Mail.SortedEmails | pynemail/maildirclient.py:92 | one fresh email per listed file, in listing order |
| Mail.GetMailFromMaildir | pynemail/maildirclient.py:89-92 | one fresh email per file of `new/` and `cur/`, in the stable newest-first order; with two or more emails, each has its modification time cached |
| Layout.Center | pynemail/ui/utils.py:7-12 | the corner leaves a margin after the window equal to the margin before it, or one more, in each direction, with floor division |
| Layout.CenterExamples | tests/test_utils.py:6-13 | (10, 8) on 20×20 is placed at (5, 6), and (20, 60) on 25×80 at (2, 10); a window taller than the screen gets a negative row |
| Layout.FitTextToCols | pynemail/ui/utils.py:15-18 | short text is padded with spaces to exactly `cols`; long text is cut to `cols - 3` characters (a negative bound counts from the end) and always ends in `...` |
| Layout.FitIdempotent | pynemail/ui/utils.py:15-18 | from three columns on, the result has exactly `cols` characters, and fitting it again changes nothing |
| Layout.FitExamples | tests/test_utils.py:16-22 | a ten-character text fits eight columns as its first five characters and `...`, and eleven columns with one space added |
| Layout.FitNegativeBound | pynemail/ui/utils.py:17 | at two columns a long text keeps all but its last character before `...` |
| Layout.LastSpace | pynemail/ui/utils.py:22-23 | the position of the last whitespace before a bound, and none only when there is no whitespace there |
| Layout.SplitPoint | pynemail/ui/utils.py:21-25 | the cut lies right after the last whitespace within the first `cols` characters, or at `cols` when there is none |
| Layout.SplitLineAtSpaceIfPossible | pynemail/ui/utils.py:21-25 | the two parts join back to the line, and the first part ends at the split point |
| Layout.SplitExamples | tests/test_utils.py:25-27 | `12 345…` is cut after the space and a run of digits hard at eight columns |
| Layout.Pad | pynemail/ui/utils.py:30 | a piece of at most `cols` characters is padded with spaces to exactly `cols` |
| Layout.PadAll | pynemail/ui/utils.py:30 | one line per piece, each that piece padded by `append_line` |
| Layout.WrapLine | pynemail/ui/utils.py:32-35 | each piece has at most `cols` characters, and every piece but the last is non-empty |
| Layout.WrapLineJoins | pynemail/ui/utils.py:32-35 | the pieces of a line join back to the line |
| Layout.WrapLineShort | pynemail/ui/utils.py:32-35 | a line that fits is one piece |
| Layout.FirstBreak | pynemail/ui/utils.py:31 | the first line break, or the length when there is none |
| Layout.Lines | pynemail/ui/utils.py:31 | `splitlines()` gives lines that hold no line break |
| Layout.LinesCons | pynemail/ui/utils.py:31 | a line and a newline give that line, then the lines of the rest |
| Layout.LinesOfLine | pynemail/ui/utils.py:31 | a text without breaks is one line, or none when empty |
| Layout.ExpandTabs | pynemail/ui/utils.py:31 | `expandtabs(4)` leaves no tab and never shortens the text |
| Layout.ExpandTabsWithoutTabs | pynemail/ui/utils.py:31 | a text without tabs is unchanged |
| Layout.ExpandTabStop | pynemail/ui/utils.py:31 | a tab moves the column to the next multiple of four |
| Layout.WrapTextToCols | pynemail/ui/utils.py:28-36 | the nested loops return exactly the reference `Wrap` of the text |
| Layout.WrapLines | pynemail/ui/utils.py:31-35 | every line gives at least one output line, and every output line is exactly `cols` characters wide |
| Layout.Wrap | pynemail/ui/utils.py:28-36 | the reference result of `wrap_text_to_cols`: the lines of the tab-expanded text, each cut into pieces and padded; every line is exactly `cols` characters wide |
| Layout.WrapOfLine | pynemail/ui/utils.py:28-36 | a tab-free single line wraps to its padded pieces |
| Layout.WrapOfTwoLines | pynemail/ui/utils.py:28-36 | two tab-free lines joined by a newline wrap one after the other |
| Layout.WrapExampleSpaced | tests/test_utils.py:27 | `'12 3456789012345'` at eight columns gives `['12      ', '34567890', '12345   ']` |
| Layout.WrapExampleTwoLines | tests/test_utils.py:30 | `'12345 6\n01'` at eight columns gives `['12345 6 ', '01      ']` |
| Layout.WrapExampleHardCuts | tests/test_utils.py:26 | `'1234567890\n0123456789'` at eight columns gives `['12345678', '90      ', '01234567', '89      ']` |
| Layout.WrapExampleTwoSpaced | tests/test_utils.py:28 | `'12345 67890\n01234 56789'` at eight columns gives `['12345   ', '67890   ', '01234   ', '56789   ']` |
| Layout.WrapExampleSpacedShort | tests/test_utils.py:29 | `'12345 67890\n01'` at eight columns gives `['12345   ', '67890   ', '01      ']` |

## Left out

- `imap_client` (`pynemail/imapclient.py:70-80`): host and port parsing,
  login, `select`, `close` and `logout` are I/O. The model starts from a
  selected session.
- The network and imaplib's byte-level responses. The session hands out
  already-parsed messages and flag tokens already split by
  `imaplib.ParseFlags`. Fetch errors and concurrent changes on the server
  are not modelled.
- The MIME parser (`BytesParser`, `get_body`, `get_content`,
  `get_payload`, `is_multipart`, `get`). Parsed messages are values of the
  `Mime` module: header fields, the plain-text body if any, the multipart
  flag and the payload parts.
- The file system: `ROOT`, `glob`, `open` and `stat`. A Maildir file is a
  value with a name, a modification time and its parsed content. The order
  the directory scan yields is taken as given.
- `MaildirEmail.__hash__`: Python object hashing has no counterpart in the
  model.
- `hidden_cursor` and `shown_cursor` (`pynemail/ui/utils.py:39-59`): they
  change urwid's global state.
- The base class's `_get_headers` and `_get_message`, which raise
  `NotImplementedError`: both backends override them. The base class's
  `flags()` and the `_get_flags` it calls (`pynemail/email.py:62-63`,
  `134-142`): neither backend defines `_get_flags`; both override `flags()`
  itself, which the model follows.
- The `flag_enum` and `flag_map` class attributes are not used by the
  modelled code.
- Layout.Center: takes the screen size as arguments. The `curses.LINES`
  and `curses.COLS` defaults are not modelled.
- Layout.WrapTextToCols: requires `cols >= 1`. For `cols == 0` the source
  loop never ends on a non-empty line, and for `cols < 0` it never ends on
  any line, the empty one included, since `len(line) > cols` always holds.
- Layout.SplitLineAtSpaceIfPossible: requires a line longer than
  `cols >= 1`, which is what its only caller passes. Other arguments are
  not modelled.
- Mail.Email.ForImap: requires a message id the server holds. Fetching an
  unknown id is not modelled.
- Text.PyIntOfDigits: `int()` is modelled for surrounding whitespace, a
  sign and ASCII digits with single underscores. Non-ASCII decimal digits
  are not modelled.
- Mail.Email.Message: "read at most once between `clear()` calls" is
  stated for IMAP only, through the command log. The Maildir file read
  (`maildirclient.py:70-72`) and `stat` (`maildirclient.py:79-82`) are not
  logged, because a Maildir file is a value in the model; that they happen
  at most once shows only through the caches they fill.
- Mail.Email.Attachments: requires the cached attachments to be valid
  (`AttachmentsValid`). Every attachment method keeps its own attachment
  valid and nothing else changes them, so this holds for any email built
  by the model.
- Mail.SortedEmail: the comparisons that `sorted` makes are not modelled one
  by one. A compared email calls `Mtime`, which is what `Lt` calls on both
  sides, so its cache ends as `Lt` leaves it.
- The IMAP command log is ghost state, used only to state which commands
  each operation sends.

## Findings

| source | as written | input that shows it | evidently intended | confidence | as-written member | corrected member |
|---|---|---|---|---|---|---|
| pynemail/imapclient.py:19-25 | `MAP_FLAG_TO_IMAP` (and `MAP_FLAG_TO_MAILDIR`, `pynemail/maildirclient.py:23-29`) is keyed by `EmailFlag.REPLIED` and `EmailFlag.READ`. `EmailFlag` has no such members, so building the map raises `AttributeError` when the module is imported. | importing `pynemail.imapclient` or `pynemail.maildirclient` | keys `EmailFlag.ANSWERED` and `EmailFlag.SEEN`, which give a total, injective map from `EmailFlag` | not executed | Flags.MapKeysAsWritten | Imap.FlagToImapIsInjective |
