/** The Maildir backend of pynemail/maildirclient.py: the `MaildirFlag`
    vocabulary, its mapping from the canonical flags, the decoder of the
    `:2,<chars>` info suffix of a message file name, and the newest-first
    order in which a mailbox is listed. */
module Maildir {
  import opened Wrappers
  import opened Exceptions
  import opened Seqs
  import Text
  import Flags
  import Mime

  /** The Maildir flag letters, in declaration order. */
  datatype MaildirFlag = Forwarded | Replied | Seen | Deleted | Draft | Flagged
  {
    /** The flag's letter in a file name. */
    function Char(): char {
      match this
      case Forwarded => 'P'
      case Replied => 'R'
      case Seen => 'S'
      case Deleted => 'T'
      case Draft => 'D'
      case Flagged => 'F'
    }

    /** Position in the declaration order. */
    function Rank(): int {
      match this
      case Forwarded => 0
      case Replied => 1
      case Seen => 2
      case Deleted => 3
      case Draft => 4
      case Flagged => 5
    }
  }

  /** Iteration order of `for flag in MaildirFlag`. */
  const AllMaildirFlags: seq<MaildirFlag> := [Forwarded, Replied, Seen, Deleted, Draft, Flagged]

  /** `MAP_FLAG_TO_MAILDIR`. The source spells two keys `EmailFlag.REPLIED`
      and `EmailFlag.READ`; they stand for `Answered` and `Seen`. */
  const FlagToMaildir: map<Flags.EmailFlag, MaildirFlag> :=
    map[Flags.Answered := Replied, Flags.Seen := Seen, Flags.Flagged := Flagged,
        Flags.Deleted := Deleted, Flags.Draft := Draft]

  /** Every canonical flag has a letter, no two share one, and `Forwarded`
      is never the target. */
  lemma FlagToMaildirIsInjective()
    ensures forall f: Flags.EmailFlag :: f in FlagToMaildir
    ensures forall f, g :: f in FlagToMaildir && g in FlagToMaildir && f != g ==> FlagToMaildir[f] != FlagToMaildir[g]
    ensures Forwarded !in FlagToMaildir.Values
  {
    forall f: Flags.EmailFlag ensures f in FlagToMaildir {
      match f
      case Answered =>
      case Seen =>
      case Flagged =>
      case Deleted =>
      case Draft =>
    }
  }

  lemma AllMaildirFlagsComplete()
    ensures forall i, j :: 0 <= i < j < |AllMaildirFlags| ==> AllMaildirFlags[i].Rank() < AllMaildirFlags[j].Rank()
    ensures forall f: MaildirFlag :: 0 <= f.Rank() < |AllMaildirFlags| && AllMaildirFlags[f.Rank()] == f
    ensures forall f: MaildirFlag :: f in AllMaildirFlags
  {
    forall f: MaildirFlag
      ensures 0 <= f.Rank() < |AllMaildirFlags| && AllMaildirFlags[f.Rank()] == f && f in AllMaildirFlags {
    }
  }

  lemma CharsAreDistinct()
    ensures forall f: MaildirFlag, g: MaildirFlag :: f != g ==> f.Char() != g.Char()
    ensures forall f: MaildirFlag, g: MaildirFlag :: f != g ==> f.Rank() != g.Rank()
  {
  }

  /** Strictly increasing in declaration order, hence without duplicates. */
  predicate Ranked(s: seq<MaildirFlag>) {
    forall i, j :: 0 <= i < j < |s| ==> s[i].Rank() < s[j].Rank()
  }

  /** The test `flag.value in flag_chars`. */
  function Present(chars: string): MaildirFlag -> bool {
    (f: MaildirFlag) => f.Char() in chars
  }

  /** The flags whose letter occurs in `chars`, in declaration order. */
  function MaildirFlagsIn(chars: string): (r: seq<MaildirFlag>)
    ensures |r| <= |AllMaildirFlags|
    ensures forall k :: 0 <= k < |r| ==> r[k].Char() in chars
  {
    FilterMembers(AllMaildirFlags, Present(chars));
    Filter(AllMaildirFlags, Present(chars))
  }

  /** What `parse_maildir_flags` returns or raises for a file name: the text
      after the first `:` (up to a second one) is the info part. */
  function InfoFlags(name: string): (r: Result<seq<MaildirFlag>, Error>)
    ensures r.Failure? ==> r.error == IndexError || r.error == ValueError || r.error.UnknownMaildirFlag?
    ensures r.Success? ==> |r.value| <= |AllMaildirFlags|
  {
    var segments := Text.Split(name, ':');
    if |segments| < 2 then Failure(IndexError) else InfoPartFlags(segments[1])
  }

  /** The info part must split at `,` into exactly a version and the flag
      letters. */
  function InfoPartFlags(info: string): (r: Result<seq<MaildirFlag>, Error>)
    ensures |Text.Split(info, ',')| != 2 ==> r == Failure(ValueError)
    ensures r.Failure? ==> r.error == ValueError || r.error.UnknownMaildirFlag?
    ensures r.Success? ==> |r.value| <= |AllMaildirFlags|
  {
    var fields := Text.Split(info, ',');
    if |fields| != 2 then Failure(ValueError) else VersionedFlags(fields[0], fields[1])
  }

  /** The version must be an integer equal to 2. */
  function VersionedFlags(version: string, chars: string): (r: Result<seq<MaildirFlag>, Error>)
    ensures r.Success? <==> Text.PyInt(version) == Some(2)
    ensures Text.PyInt(version).None? <==> r == Failure(ValueError)
    ensures r.Failure? && r.error != ValueError ==> r.error == UnknownMaildirFlag(version)
    ensures r.Success? ==> forall k :: 0 <= k < |r.value| ==> r.value[k].Char() in chars
  {
    match Text.PyInt(version)
    case None => Failure(ValueError)
    case Some(v) => if v != 2 then Failure(UnknownMaildirFlag(version)) else Success(MaildirFlagsIn(chars))
  }

  /** `parse_maildir_flags(filepath)` on the file's name. */
  method ParseMaildirFlags(name: string) returns (r: Result<seq<MaildirFlag>, Error>)
    ensures r == InfoFlags(name)
  {
    var segments := Text.Split(name, ':');
    if |segments| < 2 {
      return Failure(IndexError);
    }
    var fields := Text.Split(segments[1], ',');
    if |fields| != 2 {
      return Failure(ValueError);
    }
    var flagType, flagChars := fields[0], fields[1];
    var version := Text.PyInt(flagType);
    if version.None? {
      return Failure(ValueError);
    }
    if version.value != 2 {
      return Failure(UnknownMaildirFlag(flagType));
    }
    var flags: seq<MaildirFlag> := [];
    var i := 0;
    while i < |AllMaildirFlags|
      invariant 0 <= i <= |AllMaildirFlags|
      invariant flags == Filter(AllMaildirFlags[..i], Present(flagChars))
    {
      assert AllMaildirFlags[..i + 1][..i] == AllMaildirFlags[..i];
      if AllMaildirFlags[i].Char() in flagChars {
        flags := flags + [AllMaildirFlags[i]];
      }
      i := i + 1;
    }
    assert AllMaildirFlags[..i] == AllMaildirFlags;
    return Success(flags);
  }

  /** A flag is decoded exactly when its letter occurs; other letters are ignored. */
  lemma MaildirFlagsInMembership(chars: string, f: MaildirFlag)
    ensures f in MaildirFlagsIn(chars) <==> f.Char() in chars
  {
    AllMaildirFlagsComplete();
    FilterMembers(AllMaildirFlags, Present(chars));
    assert Present(chars)(AllMaildirFlags[f.Rank()]) == (f.Char() in chars);
  }

  /** The decoded flags follow declaration order P,R,S,T,D,F strictly, so
      they have no duplicates. */
  lemma MaildirFlagsInOrdered(chars: string)
    ensures Ranked(MaildirFlagsIn(chars))
  {
    AllMaildirFlagsComplete();
    FilterKeepsRankOrder(AllMaildirFlags, Present(chars), (f: MaildirFlag) => f.Rank());
  }

  /** Only which letters occur matters, not their order or repetition. */
  lemma MaildirFlagsInIgnoresOrder(chars: string, chars': string)
    requires forall c :: c in chars <==> c in chars'
    ensures MaildirFlagsIn(chars) == MaildirFlagsIn(chars')
  {
    FilterAgree(AllMaildirFlags, Present(chars), Present(chars'));
  }

  /** How a name made of a unique part, `:`, a version, `,` and letters is
      decoded. */
  lemma InfoFlagsOfName(unique: string, version: string, chars: string)
    requires ':' !in unique && ':' !in version && ':' !in chars
    requires ',' !in version && ',' !in chars
    ensures InfoFlags(unique + [':'] + version + [','] + chars) == VersionedFlags(version, chars)
  {
    var info := version + [','] + chars;
    Text.NotInJoin(version, chars, ',', ':');
    Text.SplitPair(unique, info, ':');
    assert unique + [':'] + version + [','] + chars == unique + [':'] + info;
    Text.SplitPair(version, chars, ',');
  }

  /** A name without `:` raises `IndexError`. */
  lemma InfoFlagsWithoutColon(name: string)
    requires ':' !in name
    ensures InfoFlags(name) == Failure(IndexError)
  {
    Text.SplitJoin([name], ':');
  }

  /** A name whose info part does not split into exactly two fields at `,`
      raises `ValueError`. */
  lemma InfoFlagsFieldCount(name: string)
    requires |Text.Split(name, ':')| >= 2
    requires |Text.Split(Text.Split(name, ':')[1], ',')| != 2
    ensures InfoFlags(name) == Failure(ValueError)
  {
  }

  /** The letters of a flag list, the inverse of `MaildirFlagsIn` on lists
      in declaration order. The source has no encoder; this one only states
      the round trip. */
  function Letters(flags: seq<MaildirFlag>): (chars: string)
    ensures |chars| == |flags|
    ensures forall k :: 0 <= k < |flags| ==> chars[k] == flags[k].Char()
  {
    if flags == [] then "" else Letters(flags[..|flags| - 1]) + [flags[|flags| - 1].Char()]
  }

  /** Decoding the letters of an ordered flag list gives that list back. */
  lemma {:induction false} LettersRoundTrip(flags: seq<MaildirFlag>)
    requires Ranked(flags)
    ensures MaildirFlagsIn(Letters(flags)) == flags
  {
    var chars := Letters(flags);
    var r := MaildirFlagsIn(chars);
    MaildirFlagsInOrdered(chars);
    CharsAreDistinct();
    forall k | 0 <= k < |r| ensures r[k] in flags {
      MaildirFlagsInMembership(chars, r[k]);
      var m :| 0 <= m < |chars| && chars[m] == r[k].Char();
      assert flags[m].Char() == r[k].Char();
    }
    forall k | 0 <= k < |flags| ensures flags[k] in r {
      assert chars[k] == flags[k].Char();
      MaildirFlagsInMembership(chars, flags[k]);
    }
    RankedSetEqual(r, flags);
  }

  /** Every element of `a` occurs in `b`. */
  predicate Within(a: seq<MaildirFlag>, b: seq<MaildirFlag>) {
    forall i :: 0 <= i < |a| ==> a[i] in b
  }

  lemma TailWithin(a: seq<MaildirFlag>, b: seq<MaildirFlag>)
    requires |a| > 0 && |b| > 0 && a[0] == b[0]
    requires Ranked(a) && Within(a, b)
    ensures Within(a[1..], b[1..])
  {
    forall k | 0 <= k < |a| - 1 ensures a[1..][k] in b[1..] {
      var m :| 0 <= m < |b| && b[m] == a[k + 1];
      assert a[0].Rank() < a[k + 1].Rank();
      assert b[1..][m - 1] == b[m];
    }
  }

  lemma SameHead(a: seq<MaildirFlag>, b: seq<MaildirFlag>)
    requires |a| > 0 && |b| > 0
    requires Ranked(a) && Ranked(b)
    requires a[0] in b && b[0] in a
    ensures a[0] == b[0]
  {
    var i :| 0 <= i < |b| && b[i] == a[0];
    var j :| 0 <= j < |a| && a[j] == b[0];
    assert a[0].Rank() <= a[j].Rank();
    assert b[0].Rank() <= b[i].Rank();
    CharsAreDistinct();
  }

  /** Two lists, each strictly ordered by rank, with the same elements are equal. */
  lemma {:induction false} RankedSetEqual(a: seq<MaildirFlag>, b: seq<MaildirFlag>)
    requires Ranked(a) && Ranked(b)
    requires Within(a, b) && Within(b, a)
    ensures a == b
    decreases |a| + |b|
  {
    assert a != [] ==> a[0] in b;
    assert b != [] ==> b[0] in a;
    if a != [] && b != [] {
      SameHead(a, b);
      TailWithin(a, b);
      TailWithin(b, a);
      assert Ranked(a[1..]) && Ranked(b[1..]);
      RankedSetEqual(a[1..], b[1..]);
      assert a == [a[0]] + a[1..] && b == [b[0]] + b[1..];
    }
  }

  /** A name built with version `2` and the letters of an ordered flag list
      decodes to that list. */
  lemma InfoFlagsRoundTrip(unique: string, flags: seq<MaildirFlag>)
    requires ':' !in unique
    requires Ranked(flags)
    ensures InfoFlags(unique + ":2," + Letters(flags)) == Success(flags)
  {
    var chars := Letters(flags);
    assert ':' !in chars && ',' !in chars by {
      forall k | 0 <= k < |chars| ensures chars[k] != ':' && chars[k] != ',' {
        assert chars[k] == flags[k].Char();
      }
    }
    var name := unique + [':'] + "2" + [','] + chars;
    InfoFlagsOfName(unique, "2", chars);
    VersionTwo(chars);
    LettersRoundTrip(flags);
    VersionTwoName(unique, chars);
  }

  lemma VersionTwoName(unique: string, chars: string)
    ensures unique + [':'] + "2" + [','] + chars == unique + ":2," + chars
  {
    assert [':'] + "2" + [','] == ":2,";
    assert unique + [':'] + "2" + [','] == unique + ":2,";
  }

  lemma VersionThreeName(unique: string)
    ensures unique + [':'] + "3" + [','] + "S" == unique + ":3,S"
  {
    assert [':'] + "3" + [','] + "S" == ":3,S";
  }

  /** Version `2` is the only one accepted. */
  lemma VersionTwo(chars: string)
    ensures VersionedFlags("2", chars) == Success(MaildirFlagsIn(chars))
    ensures VersionedFlags("3", chars) == Failure(UnknownMaildirFlag("3"))
  {
    Text.PyIntOfDigits("2");
    assert Text.DigitsValue("2") == 2;
    Text.PyIntOfDigits("3");
    assert Text.DigitsValue("3") == 3;
  }

  /** Two names whose letters differ only in order or repetition carry the
      same flags. */
  lemma InfoFlagsIgnoresLetterOrder(unique: string, chars: string, chars': string)
    requires ':' !in unique
    requires ':' !in chars && ',' !in chars && ':' !in chars' && ',' !in chars'
    requires forall c :: c in chars <==> c in chars'
    ensures InfoFlags(unique + ":2," + chars) == InfoFlags(unique + ":2," + chars')
    ensures InfoFlags(unique + ":2," + chars).Success?
  {
    InfoFlagsOfName(unique, "2", chars);
    VersionTwoName(unique, chars);
    InfoFlagsOfName(unique, "2", chars');
    VersionTwoName(unique, chars');
    VersionTwo(chars);
    VersionTwo(chars');
    MaildirFlagsInIgnoresOrder(chars, chars');
  }

  /** No letters decode to no flags. */
  lemma InfoFlagsNoLettersExample(unique: string)
    requires ':' !in unique
    ensures InfoFlags(unique + ":2,") == Success([])
  {
    InfoFlagsRoundTrip(unique, []);
    assert unique + ":2," + Letters([]) == unique + ":2,";
  }

  /** Version 3 raises `UnknownMaildirFlag`. */
  lemma InfoFlagsVersionExample(unique: string)
    requires ':' !in unique
    ensures InfoFlags(unique + ":3,S") == Failure(UnknownMaildirFlag("3"))
  {
    InfoFlagsOfName(unique, "3", "S");
    VersionThreeName(unique);
    VersionTwo("S");
  }

  /** One message file: its name, the `st_mtime` that `stat` reports, and
      its content as the MIME parser reads it. */
  datatype MaildirFile = MaildirFile(name: string, mtime: real, content: Mime.Message)

  /** One file of the listing, with whether it was found in `new/`. */
  datatype Listed = Listed(file: MaildirFile, isNew: bool)

  /** `newmail + curmail`: the files of `new/`, then those of `cur/`, in
      the order the directory scan yields them. */
  function Listing(newDir: seq<MaildirFile>, curDir: seq<MaildirFile>): (r: seq<Listed>)
    ensures |r| == |newDir| + |curDir|
    ensures forall k :: 0 <= k < |newDir| ==> r[k] == Listed(newDir[k], true)
    ensures forall k :: 0 <= k < |curDir| ==> r[|newDir| + k] == Listed(curDir[k], false)
  {
    seq(|newDir|, k requires 0 <= k < |newDir| => Listed(newDir[k], true))
    + seq(|curDir|, k requires 0 <= k < |curDir| => Listed(curDir[k], false))
  }

  /** Modification times never increase along the sequence. */
  predicate NewestFirst(s: seq<Listed>) {
    forall i, j :: 0 <= i < j < |s| ==> s[i].file.mtime >= s[j].file.mtime
  }

  /** Places `x` after every element at least as new as it. */
  function InsertNewestFirst(s: seq<Listed>, x: Listed): (r: seq<Listed>)
    ensures |r| == |s| + 1
    ensures multiset(r) == multiset(s) + multiset{x}
  {
    if s == [] then [x]
    else if s[0].file.mtime < x.file.mtime then [x] + s
    else
      assert s == [s[0]] + s[1..];
      [s[0]] + InsertNewestFirst(s[1..], x)
  }

  /** Insertion into a newest-first sequence keeps it newest first. */
  lemma {:induction false} InsertKeepsOrder(s: seq<Listed>, x: Listed)
    requires NewestFirst(s)
    ensures NewestFirst(InsertNewestFirst(s, x))
    decreases |s|
  {
    if s != [] && !(s[0].file.mtime < x.file.mtime) {
      var r' := InsertNewestFirst(s[1..], x);
      InsertKeepsOrder(s[1..], x);
      forall k | 0 <= k < |r'| ensures s[0].file.mtime >= r'[k].file.mtime {
        var y := r'[k];
        assert y in multiset(r');
        if y != x {
          assert y in multiset(s[1..]);
          var m :| 0 <= m < |s[1..]| && s[1..][m] == y;
          assert s[m + 1] == y;
        }
      }
    }
  }

  /** `sorted(mail, reverse=True)` with `__lt__` comparing modification
      times: a stable sort, newest first. */
  function SortNewestFirst(s: seq<Listed>): (r: seq<Listed>)
    ensures |r| == |s|
    ensures NewestFirst(r)
    ensures multiset(r) == multiset(s)
  {
    if s == [] then []
    else
      assert s == s[..|s| - 1] + [s[|s| - 1]];
      var sorted := SortNewestFirst(s[..|s| - 1]);
      InsertKeepsOrder(sorted, s[|s| - 1]);
      InsertNewestFirst(sorted, s[|s| - 1])
  }

  function HasMtime(t: real): Listed -> bool {
    (x: Listed) => x.file.mtime == t
  }

  /** Among entries with one modification time, insertion puts `x` last. */
  lemma {:induction false} InsertKeepsTies(s: seq<Listed>, x: Listed, t: real)
    requires NewestFirst(s)
    ensures Filter(InsertNewestFirst(s, x), HasMtime(t)) ==
      Filter(s, HasMtime(t)) + (if x.file.mtime == t then [x] else [])
    decreases |s|
  {
    if s == [] {
      assert [x] == [] + [x];
    } else if s[0].file.mtime < x.file.mtime {
      InsertInFrontKeepsTies(s, x, t);
    } else {
      assert NewestFirst(s[1..]);
      InsertKeepsTies(s[1..], x, t);
      InsertBehindKeepsTies(s, x, t);
    }
  }

  lemma InsertBehindKeepsTies(s: seq<Listed>, x: Listed, t: real)
    requires s != [] && !(s[0].file.mtime < x.file.mtime)
    requires Filter(InsertNewestFirst(s[1..], x), HasMtime(t)) ==
      Filter(s[1..], HasMtime(t)) + (if x.file.mtime == t then [x] else [])
    ensures Filter(InsertNewestFirst(s, x), HasMtime(t)) ==
      Filter(s, HasMtime(t)) + (if x.file.mtime == t then [x] else [])
  {
    var p, tail := HasMtime(t), s[1..];
    var r' := InsertNewestFirst(tail, x);
    assert InsertNewestFirst(s, x) == [s[0]] + r';
    FilterAppend([s[0]], r', p);
    FilterAppend([s[0]], tail, p);
    assert s == [s[0]] + tail;
  }

  lemma InsertInFrontKeepsTies(s: seq<Listed>, x: Listed, t: real)
    requires NewestFirst(s) && s != [] && s[0].file.mtime < x.file.mtime
    ensures Filter([x] + s, HasMtime(t)) == Filter(s, HasMtime(t)) + (if x.file.mtime == t then [x] else [])
  {
    var p := HasMtime(t);
    FilterAppend([x], s, p);
    assert Filter([x], p) == Filter([], p) + (if p(x) then [x] else []);
    if x.file.mtime == t {
      forall k | 0 <= k < |s| ensures !p(s[k]) {
        assert s[0].file.mtime >= s[k].file.mtime;
      }
      FilterNone(s, p);
    }
  }

  /** The sort is stable: entries with the same modification time keep
      their listing order. */
  lemma {:induction false} SortKeepsTies(s: seq<Listed>, t: real)
    ensures Filter(SortNewestFirst(s), HasMtime(t)) == Filter(s, HasMtime(t))
    decreases |s|
  {
    if s != [] {
      var s' := s[..|s| - 1];
      SortKeepsTies(s', t);
      InsertKeepsTies(SortNewestFirst(s'), s[|s| - 1], t);
    }
  }

  /** `get_mail_from_maildir`'s order: newest first, a permutation of the
      listing, and among equally old files those of `new/` first, each
      directory in scan order. */
  lemma ListingOrder(newDir: seq<MaildirFile>, curDir: seq<MaildirFile>, t: real)
    ensures var listed := Listing(newDir, curDir);
      && NewestFirst(SortNewestFirst(listed))
      && multiset(SortNewestFirst(listed)) == multiset(listed)
      && Filter(SortNewestFirst(listed), HasMtime(t)) ==
         Filter(listed[..|newDir|], HasMtime(t)) + Filter(listed[|newDir|..], HasMtime(t))
      && (forall k :: 0 <= k < |newDir| ==> listed[..|newDir|][k].isNew)
      && (forall k :: 0 <= k < |curDir| ==> !listed[|newDir|..][k].isNew)
  {
    var listed := Listing(newDir, curDir);
    SortKeepsTies(listed, t);
    assert listed == listed[..|newDir|] + listed[|newDir|..];
    FilterAppend(listed[..|newDir|], listed[|newDir|..], HasMtime(t));
  }
}
