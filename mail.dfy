/** pynemail/email.py with the backend overrides of imapclient.py and
    maildirclient.py: one `Email` class caching what it reads from its
    backend, the `Attachment` class, and the two mailbox listings. The
    Python subclasses `ImapEmail` and `MaildirEmail` become the two cases of
    `Backend`, and every overridden member dispatches on it. */
module Mail {
  import opened Wrappers
  import opened Exceptions
  import opened Seqs
  import Text
  import opened Flags
  import Mime
  import Imap
  import Maildir

  /** An element of the list `flags()` returns. Python lets the list hold
      members of any of the three flag enums; the backends only ever put
      their own enum's members in it. */
  datatype FlagMember =
    | EmailFlagMember(emailFlag: EmailFlag)
    | ImapFlagMember(imapFlag: Imap.ImapFlag)
    | MaildirFlagMember(maildirFlag: Maildir.MaildirFlag)

  function ImapMembers(fs: seq<Imap.ImapFlag>): (r: seq<FlagMember>)
    ensures |r| == |fs|
    ensures forall k :: 0 <= k < |fs| ==> r[k] == ImapFlagMember(fs[k])
  {
    seq(|fs|, k requires 0 <= k < |fs| => ImapFlagMember(fs[k]))
  }

  function MaildirMembers(fs: seq<Maildir.MaildirFlag>): (r: seq<FlagMember>)
    ensures |r| == |fs|
    ensures forall k :: 0 <= k < |fs| ==> r[k] == MaildirFlagMember(fs[k])
  {
    seq(|fs|, k requires 0 <= k < |fs| => MaildirFlagMember(fs[k]))
  }

  /** No element is a canonical `EmailFlag`. */
  predicate BackendOnly(fs: seq<FlagMember>) {
    forall k :: 0 <= k < |fs| ==> !fs[k].EmailFlagMember?
  }

  /** The text `body()` caches when the message has no plain-text part. */
  const BodyErrorText: string := " PynEmail Error: Unable to read email body!"

  /** `get_body(preferencelist=('plain',))` followed by `get_content()`, or
      the error text when no plain part is found. */
  function BodyText(m: Mime.Message): (r: string)
    ensures m.plainBody.Some? ==> r == m.plainBody.value
    ensures m.plainBody.None? ==> r == BodyErrorText
  {
    match m.plainBody
    case None => BodyErrorText
    case Some(text) => text
  }

  /** What `sender()` computes from the `From` field: with a space, all the
      words but the last, stripped; then surrounding double quotes removed.
      A missing field raises `TypeError` (`' ' in None`), an empty result
      `IndexError` (`fro[0]`). */
  function SenderOf(h: Mime.Message): (r: Result<string, Error>)
    ensures r.Failure? ==> r.error == TypeError || r.error == IndexError
    ensures r.Success? ==> h.Get("From").Some? && |r.value| <= |h.Get("From").value|
    ensures h.Get("From") == Some("") ==> r == Failure(IndexError)
  {
    match h.Get("From")
    case None => Failure(TypeError)
    case Some(from) =>
      var name := DisplayName(from);
      if |name| == 0 then Failure(IndexError) else Success(Text.StripQuotes(name))
  }

  /** With a space, all the words but the last, stripped; else the field. */
  function DisplayName(from: string): (r: string)
    ensures |r| <= |from|
    ensures ' ' in from ==> |r| < |from|
  {
    if ' ' in from then
      var words := Text.Split(from, ' ');
      assert |words| >= 2;
      Text.JoinLast(words, ' ');
      Text.Strip(Text.Join(words[..|words| - 1], ' '))
    else from
  }

  lemma DisplayNameOfLastWord(from: string, before: string, address: string)
    requires from == before + [' '] + address
    requires ' ' !in address
    ensures DisplayName(from) == Text.Strip(before)
  {
    assert from[|before|] == ' ';
    Text.BeforeLastSeparator(from, before, address, ' ');
  }

  /** With a space in the field, the sender is what precedes the last
      space, stripped and without surrounding quotes; nothing left raises
      `IndexError`. */
  lemma SenderOfLastWord(h: Mime.Message, before: string, address: string)
    requires h.Get("From") == Some(before + [' '] + address)
    requires ' ' !in address
    ensures var name := Text.Strip(before);
      SenderOf(h) == if |name| == 0 then Failure(IndexError) else Success(Text.StripQuotes(name))
  {
    DisplayNameOfLastWord(before + [' '] + address, before, address);
  }

  /** `"Display Name" <address>` gives the display name without its quotes. */
  lemma SenderOfQuotedName(h: Mime.Message, name: string, address: string)
    requires h.Get("From") == Some("\"" + name + "\" " + address)
    requires ' ' !in address
    ensures SenderOf(h) == Success(name)
  {
    var quoted := "\"" + name + "\"";
    assert "\"" + name + "\" " + address == quoted + [' '] + address;
    SenderOfLastWord(h, quoted, address);
    assert Text.Strip(quoted) == quoted;
    Text.StripQuotesOfQuoted(name);
  }

  /** `Display Name <address>` gives the display name when it is already
      stripped and does not start with a quote. */
  lemma SenderOfPlainName(h: Mime.Message, name: string, address: string)
    requires h.Get("From") == Some(name + " " + address)
    requires ' ' !in address
    requires |name| > 0 && name[0] != '"' && !Text.IsSpace(name[0]) && !Text.IsSpace(name[|name| - 1])
    ensures SenderOf(h) == Success(name)
  {
    assert name + " " + address == name + [' '] + address;
    SenderOfLastWord(h, name, address);
  }

  /** A bare address without spaces is returned unchanged. */
  lemma SenderOfBareAddress(h: Mime.Message, address: string)
    requires h.Get("From") == Some(address)
    requires ' ' !in address && |address| > 0 && address[0] != '"'
    ensures SenderOf(h) == Success(address)
  {
  }

  /** A `From` field that is only a trailing word after spaces raises
      `IndexError`. */
  lemma SenderOfNoName(h: Mime.Message, spaces: string, address: string)
    requires h.Get("From") == Some(spaces + " " + address)
    requires ' ' !in address && Text.AllSpace(spaces)
    ensures SenderOf(h) == Failure(IndexError)
  {
    assert spaces + " " + address == spaces + [' '] + address;
    SenderOfLastWord(h, spaces, address);
  }

  /** `headers()['Date'][:-5]`: the field without its last five characters
      (a numeric zone such as `+0100`), `TypeError` when it is missing. */
  function DateOf(h: Mime.Message): (r: Result<string, Error>)
    ensures h.Get("Date").None? <==> r == Failure(TypeError)
    ensures r.Success? ==> |r.value| == if |h.Get("Date").value| >= 5 then |h.Get("Date").value| - 5 else 0
    ensures r.Success? ==> Text.StartsWith(h.Get("Date").value, r.value)
  {
    match h.Get("Date")
    case None => Failure(TypeError)
    case Some(d) => Success(d[..Text.SliceIndex(|d|, -5)])
  }

  /** A date followed by a five-character zone gives the date back. */
  lemma DateDropsZone(h: Mime.Message, date: string, zone: string)
    requires h.Get("Date") == Some(date + zone) && |zone| == 5
    ensures DateOf(h) == Success(date)
  {
    assert (date + zone)[..|date|] == date;
  }

  /** The `filename=` value of a `Content-Disposition` field, split at `;`:
      the first segment containing `=` whose stripped text splits at `=`
      into `filename` and a value; that value without surrounding double
      quotes. A segment with more than one `=` raises `ValueError` (tuple
      unpacking), an empty value `IndexError` (`value[0]`); no such segment
      gives the empty string. */
  function FilenameIn(segments: seq<string>): (r: Result<string, Error>)
    ensures r.Failure? ==> r.error == ValueError || r.error == IndexError
    ensures r.Success? ==> '=' !in r.value
    decreases |segments|
  {
    if segments == [] then Success("")
    else if '=' !in segments[0] then FilenameIn(segments[1..])
    else
      var pair := Text.Split(Text.Strip(segments[0]), '=');
      if |pair| != 2 then Failure(ValueError)
      else if pair[0] != "filename" then FilenameIn(segments[1..])
      else if |pair[1]| == 0 then Failure(IndexError)
      else Success(Text.StripQuotes(pair[1]))
  }

  /** The loop of `filename()` over the disposition's `;` segments: the
      first `filename=VALUE` segment gives `VALUE` unquoted, and the scan
      raises on the way when a segment with `=` does not split in two or
      the value is empty. */
  method ScanSegments(segments: seq<string>) returns (r: Result<string, Error>)
    ensures r == FilenameIn(segments)
  {
    var i := 0;
    while i < |segments|
      invariant 0 <= i <= |segments|
      invariant FilenameIn(segments) == FilenameIn(segments[i..])
    {
      var segment := segments[i];
      assert segments[i..][1..] == segments[i + 1..];
      if '=' in segment {
        var pair := Text.Split(Text.Strip(segment), '=');
        if |pair| != 2 {
          return Failure(ValueError);
        }
        var key, value := pair[0], pair[1];
        if key == "filename" {
          if |value| == 0 {
            return Failure(IndexError);
          }
          return Success(Text.StripQuotes(value));
        }
      }
      i := i + 1;
    }
    return Success("");
  }

  /** `filename()` of a part: a missing `Content-Disposition` raises
      `AttributeError` (`None.split`). */
  function FilenameOf(part: Mime.Part): (r: Result<string, Error>)
    ensures part.disposition.None? <==> r == Failure(AttributeError)
    ensures r.Success? ==> '=' !in r.value
  {
    match part.disposition
    case None => Failure(AttributeError)
    case Some(d) => FilenameIn(Text.Split(d, ';'))
  }

  /** Segments before the `filename` one that have no `=` are skipped. */
  lemma {:induction false} FilenameInSkips(skipped: seq<string>, rest: seq<string>)
    requires forall k :: 0 <= k < |skipped| ==> '=' !in skipped[k]
    ensures FilenameIn(skipped + rest) == FilenameIn(rest)
    decreases |skipped|
  {
    if skipped != [] {
      assert (skipped + rest)[1..] == skipped[1..] + rest;
      FilenameInSkips(skipped[1..], rest);
    } else {
      assert skipped + rest == rest;
    }
  }

  /** `attachment; filename="NAME"` gives `NAME` back, for any name without
      `;`, `=` or a leading quote; so does the unquoted form. */
  lemma FilenameOfAttachment(part: Mime.Part, name: string, quoted: bool)
    requires ';' !in name && '=' !in name && |name| > 0
    requires !Text.IsSpace(name[|name| - 1])
    requires !quoted ==> name[0] != '"'
    requires part.disposition == Some("attachment; filename=" + (if quoted then "\"" + name + "\"" else name))
    ensures FilenameOf(part) == Success(name)
  {
    var value := if quoted then "\"" + name + "\"" else name;
    FilenameValueClean(name, quoted);
    FilenameOfValue(part, value);
    if quoted {
      Text.StripQuotesOfQuoted(name);
    }
  }

  /** `attachment; filename=VALUE` names the file `VALUE`, unquoted. */
  lemma FilenameOfValue(part: Mime.Part, value: string)
    requires ';' !in value && '=' !in value && |value| > 0
    requires !Text.IsSpace(value[|value| - 1])
    requires part.disposition == Some("attachment; filename=" + value)
    ensures FilenameOf(part) == Success(Text.StripQuotes(value))
  {
    FilenameSegment(value);
    DispositionSplit(value);
    FilenameInSkips(["attachment"], [" filename=" + value]);
  }

  lemma DispositionSplit(value: string)
    requires ';' !in " filename=" + value
    ensures Text.Split("attachment; filename=" + value, ';') == ["attachment"] + [" filename=" + value]
  {
    var seg := " filename=" + value;
    assert "attachment; filename=" + value == "attachment" + [';'] + seg;
    Text.SplitPair("attachment", seg, ';');
  }

  lemma FilenameValueClean(name: string, quoted: bool)
    requires ';' !in name && '=' !in name
    ensures var value := if quoted then "\"" + name + "\"" else name;
      ';' !in value && '=' !in value
  {
    if quoted {
      Text.NotInJoin("\"" + name, "", '"', ';');
      Text.NotInJoin("\"" + name, "", '"', '=');
      assert "\"" + name + "\"" == "\"" + name + ['"'] + "";
    }
  }

  /** The segment ` filename=VALUE` names the file `VALUE`, unquoted. */
  lemma FilenameSegment(value: string)
    requires ';' !in value && '=' !in value && |value| > 0
    requires !Text.IsSpace(value[|value| - 1])
    ensures ';' !in " filename=" + value
    ensures FilenameIn([" filename=" + value]) == Success(Text.StripQuotes(value))
  {
    SegmentSeparators(value);
    SegmentStrip(value);
    SegmentPair(value);
  }

  lemma SegmentSeparators(value: string)
    requires ';' !in value && '=' !in value
    ensures ';' !in " filename=" + value && '=' in " filename=" + value
  {
    var seg := " filename=" + value;
    Text.NotInJoin(" filename", value, '=', ';');
    assert seg == " filename" + ['='] + value;
    assert seg[9] == '=';
  }

  lemma SegmentStrip(value: string)
    requires |value| > 0 && !Text.IsSpace(value[|value| - 1])
    ensures Text.Strip(" filename=" + value) == "filename=" + value
  {
    var stripped := "filename=" + value;
    assert " filename=" + value == [' '] + stripped;
    Text.StripAfterSpaces([' '], stripped);
  }

  lemma SegmentPair(value: string)
    requires '=' !in value
    ensures Text.Split("filename=" + value, '=') == ["filename", value]
  {
    assert "filename=" + value == "filename" + ['='] + value;
    Text.SplitPair("filename", value, '=');
  }

  /** A disposition without any `=` names no file. */
  lemma FilenameOfInline(part: Mime.Part)
    requires part.disposition.Some? && '=' !in part.disposition.value
    ensures FilenameOf(part) == Success("")
  {
    var segs := Text.Split(part.disposition.value, ';');
    assert forall k :: 0 <= k < |segs| ==> '=' !in segs[k] by {
      forall k | 0 <= k < |segs| ensures '=' !in segs[k] {
        JoinedPieceIn(segs, k, ';');
      }
    }
    FilenameInSkips(segs, []);
    assert segs + [] == segs;
  }

  /** Every piece of a join occurs, character by character, in the join. */
  lemma {:induction false} JoinedPieceIn(parts: seq<string>, k: int, sep: char)
    requires 0 <= k < |parts|
    ensures forall c :: c in parts[k] ==> c in Text.Join(parts, sep)
    decreases |parts|
  {
    if |parts| > 1 {
      var rest := Text.Join(parts[1..], sep);
      assert Text.Join(parts, sep) == parts[0] + [sep] + rest;
      if k > 0 {
        JoinedPieceIn(parts[1..], k - 1, sep);
      }
    }
  }

  /** The comprehension of `get_attachments`: parts whose disposition is
      present, non-empty and starts with `attachment`. */
  predicate IsAttachmentPart(p: Mime.Part)
    ensures IsAttachmentPart(p) ==>
      p.disposition.Some? && |p.disposition.value| >= 10 && p.disposition.value[..10] == "attachment"
    ensures p.disposition == Some("inline") ==> !IsAttachmentPart(p)
  {
    p.disposition.Some? && |p.disposition.value| > 0 && Text.StartsWith(p.disposition.value, "attachment")
  }

  function AttachmentParts(payload: seq<Mime.Part>): (r: seq<Mime.Part>)
    ensures |r| <= |payload|
    ensures forall k :: 0 <= k < |r| ==> r[k] in payload && IsAttachmentPart(r[k])
  {
    FilterMembers(payload, IsAttachmentPart);
    Filter(payload, IsAttachmentPart)
  }

  /** A part is kept exactly when its disposition starts with `attachment`,
      and the kept parts keep their order. */
  lemma AttachmentPartsSelect(payload: seq<Mime.Part>)
    ensures forall k :: 0 <= k < |payload| && IsAttachmentPart(payload[k]) ==> payload[k] in AttachmentParts(payload)
    ensures forall k :: 0 <= k < |payload| && payload[k].disposition == Some("inline") ==> payload[k] !in AttachmentParts(payload)
  {
    FilterMembers(payload, IsAttachmentPart);
  }

  /** The parts `attachments()` wraps: none for a single-part message. */
  function MessageAttachmentParts(m: Mime.Message): (r: seq<Mime.Part>)
    ensures !m.multipart ==> r == []
    ensures |r| <= |m.payload|
    ensures forall k :: 0 <= k < |r| ==> r[k] in m.payload && IsAttachmentPart(r[k])
  {
    if m.multipart then AttachmentParts(m.payload) else []
  }

  /** One attachment of a message, with its lazily computed file name and
      content. */
  class Attachment {
    const part: Mime.Part
    var filename: Option<string>
    var content: Option<Mime.Content>

    predicate Valid()
      reads this
    {
      && (filename.Some? ==> FilenameOf(part) == Success(filename.value))
      && (content.Some? ==> content.value == part.content)
    }

    constructor (part: Mime.Part)
      ensures Valid()
      ensures this.part == part && filename.None? && content.None?
    {
      this.part := part;
      filename := None;
      content := None;
    }

    /** `filename()`: scans the disposition's segments once and caches the
        result; a raised error leaves the cache empty. */
    method Filename() returns (r: Result<string, Error>)
      requires Valid()
      modifies this`filename
      ensures Valid()
      ensures r == if old(filename).Some? then Success(old(filename).value) else FilenameOf(part)
      ensures filename == if r.Success? then Some(r.value) else None
    {
      if filename.Some? {
        return Success(filename.value);
      }
      if part.disposition.None? {
        return Failure(AttributeError);
      }
      r := ScanSegments(Text.Split(part.disposition.value, ';'));
      if r.Success? {
        filename := Some(r.value);
      }
    }

    /** `content()`: the part's decoded content, cached. */
    method Content() returns (c: Mime.Content)
      requires Valid()
      modifies this`content
      ensures Valid()
      ensures c == part.content && content == Some(c)
    {
      if content.None? {
        content := Some(part.content);
      }
      c := content.value;
    }
  }

  /** `Attachment.get_attachments(message)`: a fresh `Attachment` for each
      attachment part, in payload order. */
  method GetAttachments(m: Mime.Message) returns (r: seq<Attachment>)
    ensures |r| == |AttachmentParts(m.payload)|
    ensures forall k :: 0 <= k < |r| ==>
      && fresh(r[k]) && r[k].Valid()
      && r[k].part == AttachmentParts(m.payload)[k] && r[k].filename.None? && r[k].content.None?
  {
    var parts := AttachmentParts(m.payload);
    r := [];
    var i := 0;
    while i < |parts|
      invariant 0 <= i <= |parts| && |r| == i
      invariant forall k :: 0 <= k < i ==>
        && fresh(r[k]) && r[k].Valid()
        && r[k].part == parts[k] && r[k].filename.None? && r[k].content.None?
    {
      var a := new Attachment(parts[i]);
      r := r + [a];
      i := i + 1;
    }
  }

  /** What `MaildirEmail.flags()` computes from the file name. */
  function FileFlags(file: Maildir.MaildirFile): (r: Result<seq<FlagMember>, Error>)
    ensures r.Success? <==> Maildir.InfoFlags(file.name).Success?
    ensures r.Failure? ==> r.error == Maildir.InfoFlags(file.name).error
    ensures r.Success? ==> BackendOnly(r.value) && |r.value| == |Maildir.InfoFlags(file.name).value|
  {
    match Maildir.InfoFlags(file.name)
    case Failure(e) => Failure(e)
    case Success(fs) => Success(MaildirMembers(fs))
  }

  /** Which backend an email reads from: an IMAP session and the message's
      sequence number, or a Maildir file and whether it was listed in `new/`. */
  datatype Backend =
    | ImapBackend(con: Imap.ImapConnection, num: Imap.MessageId)
    | MaildirBackend(file: Maildir.MaildirFile, isNew: bool)
  {
    /** The objects the backend's operations may change. */
    function Objects(): set<object> {
      if ImapBackend? then {con} else {}
    }
  }

  /** The cached fields of an `Email`, for stating what a call changes. */
  datatype Caches = Caches(
    headers: Option<Mime.Message>,
    message: Option<Mime.Message>,
    body: Option<string>,
    sender: Option<string>,
    flags: Option<seq<FlagMember>>,
    attachments: Option<seq<Attachment>>,
    mtime: Option<real>)

  const NoCaches: Caches := Caches(None, None, None, None, None, None, None)

  /** A cached copy of one email. */
  class Email {
    const backend: Backend
    var headers: Option<Mime.Message>
    var message: Option<Mime.Message>
    var body: Option<string>
    var sender: Option<string>
    var flags: Option<seq<FlagMember>>
    var attachments: Option<seq<Attachment>>
    var mtime: Option<real>

    function State(): Caches
      reads this
    {
      Caches(headers, message, body, sender, flags, attachments, mtime)
    }

    /** The IMAP session knows the message. */
    predicate Known() {
      backend.ImapBackend? ==> backend.num in backend.con.headers && backend.num in backend.con.messages
    }

    /** The IMAP session is in a consistent state. */
    predicate Connected()
      reads backend.Objects()
    {
      backend.ImapBackend? ==> backend.con.Valid()
    }

    /** What `_get_headers` returns. */
    function HeaderSource(): Mime.Message
      requires backend.ImapBackend? ==> backend.num in backend.con.headers
    {
      match backend
      case ImapBackend(con, num) => con.headers[num]
      case MaildirBackend(file, _) => file.content
    }

    /** What `_get_message` returns. */
    function MessageSource(): Mime.Message
      requires backend.ImapBackend? ==> backend.num in backend.con.messages
    {
      match backend
      case ImapBackend(con, num) => con.messages[num]
      case MaildirBackend(file, _) => file.content
    }

    /** What the backend's `flags()` computes when nothing is cached: the
        server's current flags, or the flags in the file name. */
    function BackendFlags(): (r: Result<seq<FlagMember>, Error>)
      reads backend.Objects()
      requires Known() && Connected()
      ensures backend.ImapBackend? ==> r.Success?
      ensures r.Failure? ==> Maildir.InfoFlags(backend.file.name).Failure?
      ensures r.Success? ==> BackendOnly(r.value)
    {
      match backend
      case ImapBackend(con, num) => Success(ImapMembers(Imap.ImapFlagsIn(con.flags[num])))
      case MaildirBackend(file, _) => FileFlags(file)
    }

    /** The caches after `message()`: the message is cached, and an IMAP
        fetch drops the cached flags. */
    function AfterMessage(c: Caches): (r: Caches)
      requires Known()
      ensures r.message == Some(MessageSource())
      ensures r.(message := c.message, flags := c.flags) == c
      ensures r.flags == None || r.flags == c.flags
    {
      c.(message := Some(MessageSource()),
         flags := if backend.ImapBackend? && c.message.None? then None else c.flags)
    }

    /** The commands `message()` sends: one `FETCH (RFC822)` when nothing
        is cached. */
    function MessageFetches(c: Caches): (r: seq<Imap.Command>)
      ensures |r| <= 1
      ensures r != [] <==> backend.ImapBackend? && c.message.None?
    {
      if backend.ImapBackend? && c.message.None? then [Imap.FetchCommand(backend.num, "(RFC822)")] else []
    }

    /** The caches after `headers()`: the headers are cached; the Maildir
        backend reads them through `message()`, which caches the message
        as well. No other cache changes. */
    function AfterHeaders(c: Caches): (r: Caches)
      requires Known()
      ensures r.headers == Some(HeaderSource())
      ensures r.(headers := c.headers, message := c.message) == c
      ensures backend.ImapBackend? ==> r.message == c.message
    {
      c.(headers := Some(HeaderSource()),
         message := if backend.MaildirBackend? && c.headers.None? then Some(MessageSource()) else c.message)
    }

    /** The commands `headers()` sends: one `FETCH (RFC822.HEADER)` when
        nothing is cached. */
    function HeaderFetches(c: Caches): (r: seq<Imap.Command>)
      ensures |r| <= 1
      ensures r != [] <==> backend.ImapBackend? && c.headers.None?
    {
      if backend.ImapBackend? && c.headers.None? then [Imap.FetchCommand(backend.num, "(RFC822.HEADER)")] else []
    }

    /** Every cache holds what the backend gave. The IMAP flags cache may be
        stale, so only its kind is fixed. */
    predicate Valid()
      reads this
    {
      && Known()
      && HeadersCached() && MessageCached() && BodyCached() && SenderCached()
      && FlagsCached() && AttachmentsCached() && MtimeCached()
    }

    predicate HeadersCached()
      reads this`headers
    {
      headers.Some? ==> Known() && headers.value == HeaderSource()
    }

    predicate MessageCached()
      reads this`message
    {
      message.Some? ==> Known() && message.value == MessageSource()
    }

    predicate BodyCached()
      reads this`body
    {
      body.Some? ==> Known() && body.value == BodyText(MessageSource())
    }

    predicate SenderCached()
      reads this`sender
    {
      sender.Some? ==> Known() && SenderOf(HeaderSource()) == Success(sender.value)
    }

    predicate FlagsCached()
      reads this`flags
    {
      flags.Some? ==>
        && BackendOnly(flags.value)
        && (backend.MaildirBackend? ==> FileFlags(backend.file) == Success(flags.value))
    }

    predicate AttachmentsCached()
      reads this`attachments
    {
      attachments.Some? ==>
        && Known()
        && |attachments.value| == |MessageAttachmentParts(MessageSource())|
        && forall k :: 0 <= k < |attachments.value| ==>
             attachments.value[k].part == MessageAttachmentParts(MessageSource())[k]
    }

    /** The cached attachments keep their own caches consistent. */
    predicate AttachmentsValid()
      reads this`attachments, if attachments.Some? then attachments.value else []
    {
      attachments.Some? ==> forall k :: 0 <= k < |attachments.value| ==> attachments.value[k].Valid()
    }

    predicate MtimeCached()
      reads this`mtime
    {
      mtime.Some? ==> backend.MaildirBackend? && mtime.value == backend.file.mtime
    }

    /** `ImapEmail(imapcon, num)`: nothing cached. */
    constructor ForImap(con: Imap.ImapConnection, num: Imap.MessageId)
      requires con.Valid() && num in con.messages
      ensures backend == ImapBackend(con, num)
      ensures State() == NoCaches
      ensures Valid()
    {
      backend := ImapBackend(con, num);
      headers, message, body, sender := None, None, None, None;
      flags, attachments, mtime := None, None, None;
    }

    /** `MaildirEmail(filepath, is_new)`: nothing cached. */
    constructor ForMaildir(file: Maildir.MaildirFile, isNew: bool)
      ensures backend == MaildirBackend(file, isNew)
      ensures State() == NoCaches
      ensures Valid()
    {
      backend := MaildirBackend(file, isNew);
      headers, message, body, sender := None, None, None, None;
      flags, attachments, mtime := None, None, None;
    }

    /** `message()`: for IMAP, fetches `(RFC822)` once and, when it does,
        drops the cached flags; for Maildir, reads the file once. */
    method Message() returns (m: Mime.Message)
      requires Valid()
      modifies this`message, this`flags, backend.Objects()
      ensures Valid()
      ensures m == MessageSource()
      ensures State() == AfterMessage(old(State()))
      ensures backend.ImapBackend? ==>
        && backend.con.flags == old(backend.con.flags)
        && backend.con.log == old(backend.con.log) + MessageFetches(old(State()))
    {
      if message.None? {
        match backend
        case ImapBackend(con, num) =>
          flags := None;
          var fetched := con.FetchMessage(num);
          message := Some(fetched);
        case MaildirBackend(file, _) =>
          message := Some(file.content);
      }
      m := message.value;
    }

    /** `headers()`: for IMAP, fetches `(RFC822.HEADER)` once; for Maildir,
        the whole message, which also fills the message cache. */
    method Headers() returns (h: Mime.Message)
      requires Valid()
      modifies this`headers, this`message, this`flags, backend.Objects()
      ensures Valid()
      ensures h == HeaderSource()
      ensures State() == AfterHeaders(old(State()))
      ensures backend.ImapBackend? ==>
        && backend.con.flags == old(backend.con.flags)
        && backend.con.log == old(backend.con.log) + HeaderFetches(old(State()))
    {
      if headers.None? {
        match backend
        case ImapBackend(con, num) =>
          var fetched := con.FetchHeader(num);
          headers := Some(fetched);
        case MaildirBackend(_, _) =>
          var fetched := Message();
          headers := Some(fetched);
      }
      h := headers.value;
    }

    /** `flags()`: computed once from the backend and cached; a Maildir
        name that does not parse raises and caches nothing. */
    method Flags() returns (r: Result<seq<FlagMember>, Error>)
      requires Valid() && Connected()
      modifies this`flags, backend.Objects()
      ensures Valid() && Connected()
      ensures r == if old(flags).Some? then Success(old(flags).value) else old(BackendFlags())
      ensures r.Success? ==> BackendOnly(r.value)
      ensures State() == old(State()).(flags := if r.Success? then Some(r.value) else None)
      ensures backend.ImapBackend? ==>
        && backend.con.flags == old(backend.con.flags)
        && backend.con.log == old(backend.con.log) +
             (if old(flags).None? then [Imap.FetchCommand(backend.num, "(FLAGS)")] else [])
    {
      if flags.Some? {
        return Success(flags.value);
      }
      r := ReadFlags();
      if r.Success? {
        flags := Some(r.value);
      }
    }

    /** The uncached part of the backend's `flags()`: `parse_imap_flags` of
        a `FETCH (FLAGS)`, or `parse_maildir_flags` of the file name. */
    method ReadFlags() returns (r: Result<seq<FlagMember>, Error>)
      requires Known() && Connected()
      modifies backend.Objects()
      ensures Connected()
      ensures r == old(BackendFlags())
      ensures r.Success? ==> BackendOnly(r.value)
      ensures backend.MaildirBackend? && r.Success? ==> FileFlags(backend.file) == r
      ensures backend.ImapBackend? ==>
        && backend.con.flags == old(backend.con.flags)
        && backend.con.log == old(backend.con.log) + [Imap.FetchCommand(backend.num, "(FLAGS)")]
    {
      match backend {
        case ImapBackend(con, num) =>
          var tokens := con.FetchFlags(num);
          var parsed := Imap.ParseImapFlags(tokens);
          r := Success(ImapMembers(parsed));
        case MaildirBackend(file, _) =>
          var parsed := Maildir.ParseMaildirFlags(file.name);
          if parsed.Failure? {
            return Failure(parsed.error);
          }
          r := Success(MaildirMembers(parsed.value));
      }
    }

    /** `EmailFlag.<flag> in self.flags()`, the test behind `important()`,
        `replied()`, `deleted()` and `draft()` (and, negated, `unread()`). */
    method HasFlag(flag: EmailFlag) returns (r: Result<bool, Error>)
      requires Valid() && Connected()
      modifies this`flags, backend.Objects()
      ensures Valid() && Connected()
      ensures r.Failure? <==> old(flags).None? && old(BackendFlags()).Failure?
      ensures r.Success? ==>
        && flags == Some(if old(flags).Some? then old(flags).value else old(BackendFlags()).value)
        && r.value == (EmailFlagMember(flag) in flags.value)
        && r.value == false
      ensures r.Failure? ==> flags == None
      ensures State() == old(State()).(flags := flags)
      ensures backend.ImapBackend? ==>
        && backend.con.flags == old(backend.con.flags)
        && backend.con.log == old(backend.con.log) +
             (if old(flags).None? then [Imap.FetchCommand(backend.num, "(FLAGS)")] else [])
    {
      var fs := Flags();
      if fs.Failure? {
        return Failure(fs.error);
      }
      r := Success(EmailFlagMember(flag) in fs.value);
    }

    /** `unread()`: `EmailFlag.SEEN not in self.flags()`. */
    method Unread() returns (r: Result<bool, Error>)
      requires Valid() && Connected()
      modifies this`flags, backend.Objects()
      ensures Valid() && Connected()
      ensures r.Failure? <==> old(flags).None? && old(BackendFlags()).Failure?
      ensures r.Success? ==>
        && flags == Some(if old(flags).Some? then old(flags).value else old(BackendFlags()).value)
        && r.value == (EmailFlagMember(EmailFlag.Seen) !in flags.value)
        && r.value == true
      ensures r.Failure? ==> flags == None
      ensures State() == old(State()).(flags := flags)
      ensures backend.ImapBackend? ==>
        && backend.con.flags == old(backend.con.flags)
        && backend.con.log == old(backend.con.log) +
             (if old(flags).None? then [Imap.FetchCommand(backend.num, "(FLAGS)")] else [])
    {
      var seen := HasFlag(EmailFlag.Seen);
      if seen.Failure? {
        return Failure(seen.error);
      }
      r := Success(!seen.value);
    }

    /** `set_flag(flag, state)`: for IMAP, one `STORE` of the flag's token,
        `+FLAGS` to set and `-FLAGS` to clear, leaving the cached flags as
        they were; the Maildir backend does not override it, so the base
        class raises `NotImplementedError`. */
    method SetFlag(flag: EmailFlag, state: bool) returns (r: Result<(), Error>)
      requires Valid() && Connected()
      modifies backend.Objects()
      ensures Valid() && Connected()
      ensures backend.MaildirBackend? <==> r == Failure(NotImplementedError("Email.set_flag()"))
      ensures backend.ImapBackend? ==>
        var command := if state then "+FLAGS" else "-FLAGS";
        && r == Success(())
        && backend.con.flags == old(backend.con.flags)[backend.num :=
             Imap.StoreFlags(old(backend.con.flags)[backend.num], command, Imap.FlagToImap[flag].Token())]
        && backend.con.log == old(backend.con.log) +
             [Imap.StoreCommand(backend.num, command, Imap.FlagToImap[flag].Token())]
    {
      match backend
      case ImapBackend(con, num) =>
        var command := if state then "+FLAGS" else "-FLAGS";
        Imap.FlagToImapIsInjective();
        var imapFlag := Imap.FlagToImap[flag];
        con.Store(num, command, imapFlag.Token());
        r := Success(());
      case MaildirBackend(_, _) =>
        r := Failure(NotImplementedError("Email.set_flag()"));
    }

    /** `body()`: marks the message seen when `unread()` says so, which is
        every time, then returns the cached or computed plain-text body.
        For IMAP every call stores `\Seen`; for Maildir the call always
        raises, from the flag parser or from `set_flag`. */
    method Body() returns (r: Result<string, Error>)
      requires Valid() && Connected()
      modifies this`body, this`message, this`flags, backend.Objects()
      ensures Valid() && Connected()
      ensures backend.MaildirBackend? ==> r.Failure?
      ensures backend.MaildirBackend? && (old(flags).Some? || old(BackendFlags()).Success?) ==>
        r == Failure(NotImplementedError("Email.set_flag()"))
      ensures backend.ImapBackend? ==>
        var num := backend.num;
        && r == Success(BodyText(MessageSource()))
        && backend.con.flags == old(backend.con.flags)[num :=
             Imap.StoreFlags(old(backend.con.flags)[num], "+FLAGS", "\\Seen")]
        && backend.con.log == old(backend.con.log)
             + (if old(flags).None? then [Imap.FetchCommand(num, "(FLAGS)")] else [])
             + [Imap.StoreCommand(num, "+FLAGS", "\\Seen")]
             + (if old(body).None? then MessageFetches(old(State())) else [])
      ensures var cached :=
          if old(flags).Some? then old(flags)
          else if old(BackendFlags()).Success? then Some(old(BackendFlags()).value) else None;
        && (backend.MaildirBackend? ==> State() == old(State()).(flags := cached))
        && (backend.ImapBackend? ==>
              State() == (if old(body).None? then AfterMessage(old(State()).(flags := cached))
                          else old(State()).(flags := cached)).(body := Some(r.value)))
    {
      var unread := Unread();
      if unread.Failure? {
        return Failure(unread.error);
      }
      if unread.value {
        var stored := SetFlag(EmailFlag.Seen, true);
        if stored.Failure? {
          return Failure(stored.error);
        }
      }
      var text := BodyPart();
      r := Success(text);
    }

    /** The caching part of `body()`: the plain-text body, computed from
        the message once. */
    method BodyPart() returns (text: string)
      requires Valid()
      modifies this`body, this`message, this`flags, backend.Objects()
      ensures Valid()
      ensures text == BodyText(MessageSource()) && body == Some(text)
      ensures State() ==
        (if old(body).None? then AfterMessage(old(State())) else old(State())).(body := Some(text))
      ensures backend.ImapBackend? ==>
        && backend.con.flags == old(backend.con.flags)
        && backend.con.log == old(backend.con.log) +
             (if old(body).None? then MessageFetches(old(State())) else [])
    {
      if body.None? {
        var m := Message();
        body := Some(BodyText(m));
      }
      text := body.value;
    }

    /** `attachments()`: the attachment parts of the message, wrapped once;
        none for a single-part message. */
    method Attachments() returns (r: seq<Attachment>)
      requires Valid() && AttachmentsValid()
      modifies this`attachments, this`message, this`flags, backend.Objects()
      ensures Valid() && AttachmentsValid()
      ensures |r| == |MessageAttachmentParts(MessageSource())|
      ensures forall k :: 0 <= k < |r| ==> r[k].part == MessageAttachmentParts(MessageSource())[k] && r[k].Valid()
      ensures old(attachments).Some? ==> r == old(attachments).value
      ensures old(attachments).None? ==>
        forall k :: 0 <= k < |r| ==> fresh(r[k]) && r[k].filename.None? && r[k].content.None?
      ensures State() ==
        (if old(attachments).None? then AfterMessage(old(State())) else old(State())).(attachments := Some(r))
      ensures backend.ImapBackend? ==>
        && backend.con.flags == old(backend.con.flags)
        && backend.con.log == old(backend.con.log) +
             (if old(attachments).None? then MessageFetches(old(State())) else [])
    {
      if attachments.None? {
        var m := Message();
        if m.multipart {
          var found := GetAttachments(m);
          attachments := Some(found);
        } else {
          attachments := Some([]);
        }
      }
      r := attachments.value;
    }

    /** `sender()`: computed once from the headers' `From` field. */
    method Sender() returns (r: Result<string, Error>)
      requires Valid()
      modifies this`sender, this`headers, this`message, this`flags, backend.Objects()
      ensures Valid()
      ensures r == if old(sender).Some? then Success(old(sender).value) else SenderOf(HeaderSource())
      ensures State() == (if old(sender).None? then AfterHeaders(old(State())) else old(State()))
        .(sender := if r.Success? then Some(r.value) else None)
      ensures backend.ImapBackend? ==>
        && backend.con.flags == old(backend.con.flags)
        && backend.con.log == old(backend.con.log) +
             (if old(sender).None? then HeaderFetches(old(State())) else [])
    {
      if sender.None? {
        var h := Headers();
        var s := SenderOf(h);
        if s.Failure? {
          return s;
        }
        sender := Some(s.value);
      }
      r := Success(sender.value);
    }

    /** `to()`: the `To` field, `None` when absent. */
    method To() returns (r: Option<string>)
      requires Valid()
      modifies this`headers, this`message, this`flags, backend.Objects()
      ensures Valid()
      ensures r == HeaderSource().Get("To")
      ensures State() == AfterHeaders(old(State()))
      ensures backend.ImapBackend? ==>
        && backend.con.flags == old(backend.con.flags)
        && backend.con.log == old(backend.con.log) + HeaderFetches(old(State()))
    {
      var h := Headers();
      r := h.Get("To");
    }

    /** `subject()`: the `Subject` field, `None` when absent. */
    method Subject() returns (r: Option<string>)
      requires Valid()
      modifies this`headers, this`message, this`flags, backend.Objects()
      ensures Valid()
      ensures r == HeaderSource().Get("Subject")
      ensures State() == AfterHeaders(old(State()))
      ensures backend.ImapBackend? ==>
        && backend.con.flags == old(backend.con.flags)
        && backend.con.log == old(backend.con.log) + HeaderFetches(old(State()))
    {
      var h := Headers();
      r := h.Get("Subject");
    }

    /** `date()`: the `Date` field without its zone. */
    method Date() returns (r: Result<string, Error>)
      requires Valid()
      modifies this`headers, this`message, this`flags, backend.Objects()
      ensures Valid()
      ensures r == DateOf(HeaderSource())
      ensures State() == AfterHeaders(old(State()))
      ensures backend.ImapBackend? ==>
        && backend.con.flags == old(backend.con.flags)
        && backend.con.log == old(backend.con.log) + HeaderFetches(old(State()))
    {
      var h := Headers();
      r := DateOf(h);
    }

    /** `clear_flags()`. */
    method ClearFlags()
      requires Valid()
      modifies this`flags
      ensures Valid()
      ensures State() == old(State()).(flags := None)
    {
      flags := None;
    }

    /** `clear()`: every cache emptied (the Maildir override also forgets
        the modification time). */
    method Clear()
      requires Valid()
      modifies this`headers, this`message, this`flags, this`body, this`sender, this`attachments, this`mtime
      ensures Valid()
      ensures State() == NoCaches.(mtime := if backend.ImapBackend? then old(mtime) else None)
    {
      ClearFlags();
      headers, message, attachments, body, sender := None, None, None, None, None;
      if backend.MaildirBackend? {
        mtime := None;
      }
      assert State() == NoCaches.(mtime := mtime);
    }

    /** `mtime()` of a Maildir email: the file's `st_mtime`, cached. An IMAP
        email has no such member. */
    method Mtime() returns (r: Result<real, Error>)
      requires Valid()
      modifies this`mtime
      ensures Valid()
      ensures backend.ImapBackend? <==> r == Failure(AttributeError)
      ensures backend.MaildirBackend? ==> r == Success(backend.file.mtime) && mtime == Some(backend.file.mtime)
      ensures backend.ImapBackend? ==> mtime == old(mtime)
    {
      match backend
      case ImapBackend(_, _) =>
        r := Failure(AttributeError);
      case MaildirBackend(file, _) =>
        if mtime.None? {
          mtime := Some(file.mtime);
        }
        r := Success(mtime.value);
    }

    /** `__lt__` of `MaildirEmail`: compares modification times, after
        asserting that `other` is a Maildir email too. IMAP emails define
        no order, so `<` on them raises `TypeError`. */
    method Lt(other: Email) returns (r: Result<bool, Error>)
      requires Valid() && other.Valid()
      modifies this`mtime, other`mtime
      ensures Valid() && other.Valid()
      ensures backend.ImapBackend? ==> r == Failure(TypeError)
      ensures backend.MaildirBackend? && other.backend.ImapBackend? ==> r == Failure(AssertionError)
      ensures backend.MaildirBackend? && other.backend.MaildirBackend? ==>
        && r == Success(backend.file.mtime < other.backend.file.mtime)
        && mtime == Some(backend.file.mtime) && other.mtime == Some(other.backend.file.mtime)
      ensures !(backend.MaildirBackend? && other.backend.MaildirBackend?) ==>
        mtime == old(mtime) && other.mtime == old(other.mtime)
    {
      if backend.ImapBackend? {
        return Failure(TypeError);
      }
      if !other.backend.MaildirBackend? {
        return Failure(AssertionError);
      }
      var mine := Mtime();
      var theirs := other.Mtime();
      r := Success(mine.value < theirs.value);
    }
  }

  /** The canonical flags never occur in what a backend reports, so
      `unread()` is true and `important()`, `replied()`, `deleted()` and
      `draft()` are false for every email. */
  lemma BackendFlagsAreNeverCanonical(e: Email)
    requires e.Known() && e.Connected()
    ensures e.BackendFlags().Success? ==> BackendOnly(e.BackendFlags().value)
    ensures e.BackendFlags().Success? ==> forall f: EmailFlag :: EmailFlagMember(f) !in e.BackendFlags().value
  {
  }

  /** The IMAP flags reported for a message name each flag whose token the
      server holds, in declaration order. */
  lemma ImapBackendFlags(e: Email, f: Imap.ImapFlag)
    requires e.Known() && e.Connected() && e.backend.ImapBackend?
    ensures e.BackendFlags().Success?
    ensures ImapFlagMember(f) in e.BackendFlags().value <==> f.Token() in e.backend.con.flags[e.backend.num]
  {
    var fs := Imap.ImapFlagsIn(e.backend.con.flags[e.backend.num]);
    Imap.ImapFlagsInMembership(e.backend.con.flags[e.backend.num], f);
    if ImapFlagMember(f) in ImapMembers(fs) {
      var k :| 0 <= k < |fs| && ImapMembers(fs)[k] == ImapFlagMember(f);
      assert fs[k] == f;
    }
    if f in fs {
      var k :| 0 <= k < |fs| && fs[k] == f;
      assert ImapMembers(fs)[k] == ImapFlagMember(f);
    }
  }

  /** `get_mail_from_imap(client)`: one fresh email per identifier that
      `SEARCH ALL` returns, newest (last) first. */
  method GetMailFromImap(con: Imap.ImapConnection) returns (r: seq<Email>)
    requires con.Valid()
    modifies con`log
    ensures con.log == old(con.log) + [Imap.SearchCommand("ALL")]
    ensures |r| == |con.searchResult|
    ensures forall k :: 0 <= k < |r| ==>
      && fresh(r[k]) && r[k].Valid() && r[k].State() == NoCaches
      && r[k].backend == ImapBackend(con, Reverse(con.searchResult)[k])
  {
    var ids := con.Search();
    var mails: seq<Email> := [];
    var i := 0;
    while i < |ids|
      invariant 0 <= i <= |ids| && |mails| == i
      invariant con.Valid() && ids == con.searchResult
      invariant con.log == old(con.log) + [Imap.SearchCommand("ALL")]
      invariant forall k :: 0 <= k < i ==>
        && fresh(mails[k]) && mails[k].Valid() && mails[k].State() == NoCaches
        && mails[k].backend == ImapBackend(con, ids[k])
    {
      var e := new Email.ForImap(con, ids[i]);
      mails := mails + [e];
      i := i + 1;
    }
    r := Reverse(mails);
  }

  /** One email of the sorted listing; `compared` when the sort called its
      `__lt__`, which cached the modification time. */
  method SortedEmail(listed: Maildir.Listed, compared: bool) returns (e: Email)
    ensures fresh(e) && e.Valid()
    ensures e.backend == MaildirBackend(listed.file, listed.isNew)
    ensures e.State() == NoCaches.(mtime := if compared then Some(listed.file.mtime) else None)
  {
    e := new Email.ForMaildir(listed.file, listed.isNew);
    if compared {
      var t := e.Mtime();
    }
  }

  /** The emails of a sorted listing, in its order. */
  method SortedEmails(sorted: seq<Maildir.Listed>) returns (r: seq<Email>)
    ensures |r| == |sorted|
    ensures forall k :: 0 <= k < |r| ==>
      && fresh(r[k]) && r[k].Valid()
      && r[k].backend == MaildirBackend(sorted[k].file, sorted[k].isNew)
      && r[k].State() == NoCaches.(mtime := if |sorted| >= 2 then Some(sorted[k].file.mtime) else None)
  {
    r := [];
    var i := 0;
    while i < |sorted|
      invariant 0 <= i <= |sorted| && |r| == i
      invariant forall k :: 0 <= k < i ==>
        && fresh(r[k]) && r[k].Valid()
        && r[k].backend == MaildirBackend(sorted[k].file, sorted[k].isNew)
        && r[k].State() == NoCaches.(mtime := if |sorted| >= 2 then Some(sorted[k].file.mtime) else None)
    {
      var e := SortedEmail(sorted[i], |sorted| >= 2);
      r := r + [e];
      i := i + 1;
    }
  }

  /** `get_mail_from_maildir(maildir)`: one email per file of `new/` and
      `cur/`, sorted newest first by `__lt__`. Sorting two or more emails
      compares each at least once, which caches its modification time. */
  method GetMailFromMaildir(newDir: seq<Maildir.MaildirFile>, curDir: seq<Maildir.MaildirFile>)
    returns (r: seq<Email>)
    ensures |r| == |newDir| + |curDir|
    ensures forall k :: 0 <= k < |r| ==>
      var listed := Maildir.SortNewestFirst(Maildir.Listing(newDir, curDir))[k];
      && fresh(r[k]) && r[k].Valid()
      && r[k].backend == MaildirBackend(listed.file, listed.isNew)
      && r[k].State() == NoCaches.(mtime := if |r| >= 2 then Some(listed.file.mtime) else None)
  {
    var sorted := Maildir.SortNewestFirst(Maildir.Listing(newDir, curDir));
    r := SortedEmails(sorted);
  }
}
