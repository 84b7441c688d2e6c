/** The IMAP backend of pynemail/imapclient.py: the `ImapFlag` vocabulary,
    its mapping from the canonical flags, the filter that turns the tokens of
    a `FETCH (FLAGS)` response into flags, and the server session the
    backend talks to. */
module Imap {
  import opened Wrappers
  import opened Seqs
  import Flags
  import Mime

  /** The message identifiers `SEARCH` returns. */
  type MessageId = string

  /** The IMAP system flags (section 2.3.2 of RFC 3501), in declaration order. */
  datatype ImapFlag = Replied | Seen | Flagged | Deleted | Draft | Recent
  {
    /** The flag's token on the wire. */
    function Token(): string {
      match this
      case Replied => "\\Answered"
      case Seen => "\\Seen"
      case Flagged => "\\Flagged"
      case Deleted => "\\Deleted"
      case Draft => "\\Draft"
      case Recent => "\\Recent"
    }

    /** Position in the declaration order. */
    function Rank(): int {
      match this
      case Replied => 0
      case Seen => 1
      case Flagged => 2
      case Deleted => 3
      case Draft => 4
      case Recent => 5
    }
  }

  /** Iteration order of `for flag in ImapFlag`. */
  const AllImapFlags: seq<ImapFlag> := [Replied, Seen, Flagged, Deleted, Draft, Recent]

  /** `MAP_FLAG_TO_IMAP`. The source spells two keys `EmailFlag.REPLIED` and
      `EmailFlag.READ`; they stand for `Answered` and `Seen`. */
  const FlagToImap: map<Flags.EmailFlag, ImapFlag> :=
    map[Flags.Answered := Replied, Flags.Seen := Seen, Flags.Flagged := Flagged,
        Flags.Deleted := Deleted, Flags.Draft := Draft]

  /** Every canonical flag has a token, no two share one, and `\Recent` is
      never the target: the `assert flag in MAP_FLAG_TO_IMAP` in `set_flag`
      holds for every `EmailFlag`. */
  lemma FlagToImapIsInjective()
    ensures forall f: Flags.EmailFlag :: f in FlagToImap
    ensures forall f, g :: f in FlagToImap && g in FlagToImap && f != g ==> FlagToImap[f] != FlagToImap[g]
    ensures Recent !in FlagToImap.Values
  {
    forall f: Flags.EmailFlag ensures f in FlagToImap {
      match f
      case Answered =>
      case Seen =>
      case Flagged =>
      case Deleted =>
      case Draft =>
    }
  }

  lemma AllImapFlagsComplete()
    ensures forall f: ImapFlag :: f in AllImapFlags
    ensures forall i, j :: 0 <= i < j < |AllImapFlags| ==> AllImapFlags[i].Rank() < AllImapFlags[j].Rank()
    ensures forall f: ImapFlag :: 0 <= f.Rank() < |AllImapFlags| && AllImapFlags[f.Rank()] == f
  {
    forall f: ImapFlag ensures 0 <= f.Rank() < |AllImapFlags| && AllImapFlags[f.Rank()] == f && f in AllImapFlags {
    }
  }

  /** The test `flag.value in parsed_flag_strings`. */
  function Present(tokens: seq<string>): ImapFlag -> bool {
    (f: ImapFlag) => f.Token() in tokens
  }

  /** The flags `parse_imap_flags` returns for the parsed tokens. */
  function ImapFlagsIn(tokens: seq<string>): (r: seq<ImapFlag>)
    ensures |r| <= |AllImapFlags|
    ensures forall k :: 0 <= k < |r| ==> r[k].Token() in tokens
  {
    FilterMembers(AllImapFlags, Present(tokens));
    Filter(AllImapFlags, Present(tokens))
  }

  /** `parse_imap_flags` after `imaplib.ParseFlags`: keeps, in declaration
      order, the flags whose token was sent; unknown tokens are dropped. */
  method ParseImapFlags(tokens: seq<string>) returns (flags: seq<ImapFlag>)
    ensures flags == ImapFlagsIn(tokens)
  {
    flags := [];
    var i := 0;
    while i < |AllImapFlags|
      invariant 0 <= i <= |AllImapFlags|
      invariant flags == Filter(AllImapFlags[..i], Present(tokens))
    {
      assert AllImapFlags[..i + 1][..i] == AllImapFlags[..i];
      if AllImapFlags[i].Token() in tokens {
        flags := flags + [AllImapFlags[i]];
      }
      i := i + 1;
    }
    assert AllImapFlags[..i] == AllImapFlags;
  }

  /** A flag is in the result exactly when its token was sent. */
  lemma ImapFlagsInMembership(tokens: seq<string>, f: ImapFlag)
    ensures f in ImapFlagsIn(tokens) <==> f.Token() in tokens
  {
    AllImapFlagsComplete();
    FilterMembers(AllImapFlags, Present(tokens));
    var k := f.Rank();
    assert Present(tokens)(AllImapFlags[k]) == (f.Token() in tokens);
  }

  /** The result follows declaration order strictly, so it has no duplicates. */
  lemma ImapFlagsInOrdered(tokens: seq<string>)
    ensures var r := ImapFlagsIn(tokens);
      forall i, j :: 0 <= i < j < |r| ==> r[i].Rank() < r[j].Rank()
  {
    AllImapFlagsComplete();
    FilterKeepsRankOrder(AllImapFlags, Present(tokens), (f: ImapFlag) => f.Rank());
  }

  /** Only which tokens were sent matters, not their order or repetition. */
  lemma ImapFlagsInIgnoresOrder(tokens: seq<string>, tokens': seq<string>)
    requires forall t :: t in tokens <==> t in tokens'
    ensures ImapFlagsIn(tokens) == ImapFlagsIn(tokens')
  {
    FilterAgree(AllImapFlags, Present(tokens), Present(tokens'));
  }

  /** The server's flag tokens after `STORE +FLAGS` (add the token) or
      `STORE -FLAGS` (remove it), section 6.4.6 of RFC 3501. */
  function StoreFlags(current: seq<string>, command: string, token: string): (r: seq<string>)
    requires command == "+FLAGS" || command == "-FLAGS"
    ensures token in r <==> command == "+FLAGS"
    ensures forall t :: t != token ==> (t in r <==> t in current)
  {
    if command == "+FLAGS" then
      (if token in current then current else current + [token])
    else
      var keep := (t: string) => t != token;
      FilterMembers(current, keep);
      Filter(current, keep)
  }

  /** A command sent on the session, as the connection's log records it. */
  datatype Command =
    | FetchCommand(num: MessageId, items: string)
    | StoreCommand(num: MessageId, command: string, flags: string)
    | SearchCommand(criteria: string)

  /** An open, selected IMAP session (imaplib's `IMAP4` after `select()`),
      seen through the commands the core issues. The server holds each
      message's header block, full text and flag tokens; only the flags
      change. `log` lists every command sent, in order. */
  class ImapConnection {
    const headers: map<MessageId, Mime.Message>
    const messages: map<MessageId, Mime.Message>
    const searchResult: seq<MessageId>
    var flags: map<MessageId, seq<string>>
    ghost var log: seq<Command>

    predicate Valid()
      reads this`flags
    {
      && headers.Keys == messages.Keys
      && flags.Keys == messages.Keys
      && forall k :: 0 <= k < |searchResult| ==> searchResult[k] in messages
    }

    constructor (headers: map<MessageId, Mime.Message>, messages: map<MessageId, Mime.Message>,
                 searchResult: seq<MessageId>, flags: map<MessageId, seq<string>>)
      requires headers.Keys == messages.Keys && flags.Keys == messages.Keys
      requires forall k :: 0 <= k < |searchResult| ==> searchResult[k] in messages
      ensures Valid()
      ensures this.headers == headers && this.messages == messages
      ensures this.searchResult == searchResult && this.flags == flags
      ensures log == []
    {
      this.headers := headers;
      this.messages := messages;
      this.searchResult := searchResult;
      this.flags := flags;
      log := [];
    }

    /** `fetch(num, '(RFC822.HEADER)')`, parsed. */
    method FetchHeader(num: MessageId) returns (m: Mime.Message)
      requires num in headers
      modifies this`log
      ensures m == headers[num]
      ensures log == old(log) + [FetchCommand(num, "(RFC822.HEADER)")]
    {
      m := headers[num];
      log := log + [FetchCommand(num, "(RFC822.HEADER)")];
    }

    /** `fetch(num, '(RFC822)')`, parsed. */
    method FetchMessage(num: MessageId) returns (m: Mime.Message)
      requires num in messages
      modifies this`log
      ensures m == messages[num]
      ensures log == old(log) + [FetchCommand(num, "(RFC822)")]
    {
      m := messages[num];
      log := log + [FetchCommand(num, "(RFC822)")];
    }

    /** `fetch(num, '(FLAGS)')`, with the flag list already split into tokens. */
    method FetchFlags(num: MessageId) returns (tokens: seq<string>)
      requires num in flags
      modifies this`log
      ensures tokens == flags[num]
      ensures log == old(log) + [FetchCommand(num, "(FLAGS)")]
    {
      tokens := flags[num];
      log := log + [FetchCommand(num, "(FLAGS)")];
    }

    /** `store(num, command, token)` with `command` one of `+FLAGS`, `-FLAGS`. */
    method Store(num: MessageId, command: string, token: string)
      requires Valid() && num in flags
      requires command == "+FLAGS" || command == "-FLAGS"
      modifies this
      ensures Valid()
      ensures flags == old(flags)[num := StoreFlags(old(flags)[num], command, token)]
      ensures log == old(log) + [StoreCommand(num, command, token)]
    {
      flags := flags[num := StoreFlags(flags[num], command, token)];
      log := log + [StoreCommand(num, command, token)];
    }

    /** `search(None, 'ALL')`, with the response split into identifiers. */
    method Search() returns (ids: seq<MessageId>)
      modifies this`log
      ensures ids == searchResult
      ensures log == old(log) + [SearchCommand("ALL")]
    {
      ids := searchResult;
      log := log + [SearchCommand("ALL")];
    }
  }
}
