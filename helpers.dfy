/**
 * The remote naming scheme of btrtb (btrtb/helpers.py): a published remote snapshot
 * lives at `{backup root}/{config}/{timestamp}`, the timestamp written with the format
 * `%Y-%m-%d_%H:%M:%S` in UTC; decoding reads the text after the last `/` back into
 * an instant. Also the splitter that turns the output of `ls -1` into entry names.
 */
module Helpers {
  import opened Wrappers
  import opened Instants

  /** Length of a timestamp in the format `%Y-%m-%d_%H:%M:%S`. */
  const TimestampLength: nat := 19

  predicate IsDigit(c: char) {
    '0' <= c <= '9'
  }

  function DigitChar(n: nat): (c: char)
    requires n < 10
    ensures IsDigit(c)
  {
    ('0' as int + n) as char
  }

  function DigitValue(c: char): (n: nat)
    requires IsDigit(c)
    ensures n < 10 && DigitChar(n) == c
  {
    c as int - '0' as int
  }

  /** The two-digit number written at positions i and i + 1. */
  function Number2(s: string, i: nat): (n: nat)
    requires i + 1 < |s| && IsDigit(s[i]) && IsDigit(s[i + 1])
    ensures n < 100
  {
    10 * DigitValue(s[i]) + DigitValue(s[i + 1])
  }

  /** Positions of the separators `-`, `-`, `_`, `:`, `:` in the timestamp format. */
  predicate IsSeparatorPosition(i: int) {
    i == 4 || i == 7 || i == 10 || i == 13 || i == 16
  }

  /** The canonical shape: 19 characters, zero-padded digit fields, the five separators. */
  predicate WellFormedTimestamp(s: string) {
    && |s| == TimestampLength
    && s[4] == '-' && s[7] == '-' && s[10] == '_' && s[13] == ':' && s[16] == ':'
    && forall i :: 0 <= i < |s| && !IsSeparatorPosition(i) ==> IsDigit(s[i])
  }

  /** The field values a well-formed timestamp spells, before any calendar check. */
  function FieldsOf(s: string): DateTime
    requires WellFormedTimestamp(s)
  {
    DateTime(100 * Number2(s, 0) + Number2(s, 2), Number2(s, 5), Number2(s, 8),
             Number2(s, 11), Number2(s, 14), Number2(s, 17))
  }

  /** Field values small enough to be written in the format's fixed widths. */
  predicate Spellable(t: DateTime) {
    && 0 <= t.year < 10000 && 0 <= t.month < 100 && 0 <= t.day < 100
    && 0 <= t.hour < 100 && 0 <= t.minute < 100 && 0 <= t.second < 100
  }

  /** The format's fixed-width, zero-padded rendering of the six fields, in order. */
  function Spell(t: DateTime): (s: string)
    requires Spellable(t)
    ensures WellFormedTimestamp(s)
    ensures FieldsOf(s) == t
  {
    var hi, lo := t.year / 100, t.year % 100;
    [ DigitChar(hi / 10), DigitChar(hi % 10), DigitChar(lo / 10), DigitChar(lo % 10), '-',
      DigitChar(t.month / 10), DigitChar(t.month % 10), '-',
      DigitChar(t.day / 10), DigitChar(t.day % 10), '_',
      DigitChar(t.hour / 10), DigitChar(t.hour % 10), ':',
      DigitChar(t.minute / 10), DigitChar(t.minute % 10), ':',
      DigitChar(t.second / 10), DigitChar(t.second % 10) ]
  }

  /**
   * `strftime(TIMESTAMP_FORMAT)` of a UTC datetime: four-digit year, two-digit month,
   * day, hour, minute and second, in that order.
   */
  function FormatTimestamp(t: Instant): (s: string)
    ensures WellFormedTimestamp(s)
    ensures FieldsOf(s) == t
  {
    Spell(t)
  }

  /**
   * `datetime.strptime(s, TIMESTAMP_FORMAT).replace(tzinfo=timezone.utc)`, restricted to
   * the canonical form: None stands for the ValueError raised on anything else,
   * including a well-formed string that names no calendar date.
   */
  function ParseTimestamp(s: string): (r: Option<Instant>)
    ensures r.Some? ==> FormatTimestamp(r.value) == s
    ensures r.None? ==> forall t: Instant :: FormatTimestamp(t) != s
  {
    if WellFormedTimestamp(s) && ValidDateTime(FieldsOf(s)) then
      SameFieldsSameText(s, FormatTimestamp(FieldsOf(s)));
      Some(FieldsOf(s))
    else None
  }

  /** Formatting then parsing gives back the instant. */
  lemma ParseFormat(t: Instant)
    ensures ParseTimestamp(FormatTimestamp(t)) == Some(t)
  {
  }

  lemma {:induction false} DivModTen(a: nat, b: nat)
    requires b < 10
    ensures (10 * a + b) / 10 == a && (10 * a + b) % 10 == b
  {
  }

  lemma {:induction false} DivModHundred(a: nat, b: nat)
    requires b < 100
    ensures (100 * a + b) / 100 == a && (100 * a + b) % 100 == b
  {
  }

  /** A timestamp that parses is the one formatting of what it parses to: the format is canonical. */
  lemma {:induction false} FormatParse(s: string, t: Instant)
    requires ParseTimestamp(s) == Some(t)
    ensures FormatTimestamp(t) == s
  {
    SameFieldsSameText(s, FormatTimestamp(t));
  }

  /** Two well-formed timestamps spelling the same fields are the same text. */
  lemma {:induction false} SameFieldsSameText(s: string, f: string)
    requires WellFormedTimestamp(s) && WellFormedTimestamp(f)
    requires FieldsOf(s) == FieldsOf(f)
    ensures s == f
  {
    DivModHundred(Number2(s, 0), Number2(s, 2));
    DivModHundred(Number2(f, 0), Number2(f, 2));
    PairRoundTrip(s, f, 0);
    PairRoundTrip(s, f, 2);
    PairRoundTrip(s, f, 5);
    PairRoundTrip(s, f, 8);
    PairRoundTrip(s, f, 11);
    PairRoundTrip(s, f, 14);
    PairRoundTrip(s, f, 17);
    assert forall i :: 0 <= i < 19 ==> f[i] == s[i];
  }

  /** Two two-digit fields that read as the same number are the same two characters. */
  lemma {:induction false} PairRoundTrip(s: string, f: string, i: nat)
    requires i + 1 < |s| && i + 1 < |f|
    requires IsDigit(s[i]) && IsDigit(s[i + 1]) && IsDigit(f[i]) && IsDigit(f[i + 1])
    requires Number2(s, i) == Number2(f, i)
    ensures s[i] == f[i] && s[i + 1] == f[i + 1]
  {
    DivModTen(DigitValue(s[i]), DigitValue(s[i + 1]));
    DivModTen(DigitValue(f[i]), DigitValue(f[i + 1]));
  }

  /** `path.rpartition('/')[2]`: the longest suffix without `/`, the whole string if it has none. */
  function LastSegment(path: string): (seg: string)
    ensures |seg| <= |path| && seg == path[|path| - |seg|..]
    ensures '/' !in seg
    ensures |seg| < |path| ==> path[|path| - |seg| - 1] == '/'
  {
    if |path| == 0 then ""
    else if path[|path| - 1] == '/' then ""
    else LastSegment(path[..|path| - 1]) + [path[|path| - 1]]
  }

  /** `get_remote_snapshot_path_from_datetime`: the remote path of the snapshot taken at `t`. */
  function Encode(backupRoot: string, config: string, t: Instant): (path: string)
    ensures path == backupRoot + "/" + config + "/" + LastSegment(path)
    ensures LastSegment(path) == FormatTimestamp(t)
    ensures Decode(path) == Some(t)
  {
    var ts := FormatTimestamp(t);
    LastSegmentAfterSlash(backupRoot + "/" + config, ts);
    WellFormedIsOneSegment(ts);
    LastSegmentOfBare(ts);
    ParseFormat(t);
    backupRoot + "/" + config + "/" + ts
  }

  /**
   * `get_datetime_from_remote_snapshot_path`: None stands for the ValueError. A path names
   * an instant exactly when its last segment is that instant's timestamp.
   */
  function Decode(path: string): (r: Option<Instant>)
    ensures r.Some? ==> FormatTimestamp(r.value) == LastSegment(path)
  {
    ParseTimestamp(LastSegment(path))
  }

  lemma {:induction false} LastSegmentAfterSlash(p: string, s: string)
    ensures LastSegment(p + "/" + s) == LastSegment(s)
    decreases |s|
  {
    var whole := p + "/" + s;
    if |s| == 0 {
      assert whole[|whole| - 1] == '/';
    } else {
      assert whole[|whole| - 1] == s[|s| - 1];
      if s[|s| - 1] != '/' {
        assert whole[..|whole| - 1] == p + "/" + s[..|s| - 1];
        LastSegmentAfterSlash(p, s[..|s| - 1]);
      }
    }
  }

  lemma {:induction false} LastSegmentOfBare(s: string)
    requires '/' !in s
    ensures LastSegment(s) == s
    decreases |s|
  {
    if |s| > 0 {
      assert s[|s| - 1] in s;
      assert s[..|s| - 1] + [s[|s| - 1]] == s;
      assert forall c :: c in s[..|s| - 1] ==> c in s;
      LastSegmentOfBare(s[..|s| - 1]);
    }
  }

  /** Decoding looks only at the text after the last `/`. */
  lemma DecodeIgnoresPrefix(p: string, s: string)
    ensures Decode(p + "/" + s) == Decode(s)
  {
    LastSegmentAfterSlash(p, s);
  }

  /** A string without `/` is read as the timestamp itself. */
  lemma DecodeBare(s: string)
    requires '/' !in s
    ensures Decode(s) == ParseTimestamp(s)
  {
    LastSegmentOfBare(s);
  }

  lemma WellFormedIsOneSegment(s: string)
    requires WellFormedTimestamp(s)
    ensures '/' !in s && '\n' !in s
  {
    forall i | 0 <= i < |s| ensures s[i] != '/' && s[i] != '\n' {
      if !IsSeparatorPosition(i) {
        assert IsDigit(s[i]);
      }
    }
  }

  /** Round trip of the naming scheme, for every backup root and configuration name. */
  lemma DecodeEncode(backupRoot: string, config: string, t: Instant)
    ensures Decode(Encode(backupRoot, config, t)) == Some(t)
  {
    var ts := FormatTimestamp(t);
    assert Encode(backupRoot, config, t) == (backupRoot + "/" + config) + "/" + ts;
    DecodeIgnoresPrefix(backupRoot + "/" + config, ts);
    WellFormedIsOneSegment(ts);
    DecodeBare(ts);
    ParseFormat(t);
  }

  /**
   * A path decodes to `t` exactly when its last segment is the formatting of `t`: nothing
   * else is read as that instant.
   */
  lemma DecodeExactlyFormatted(path: string, t: Instant)
    ensures Decode(path) == Some(t) <==> LastSegment(path) == FormatTimestamp(t)
  {
    if Decode(path) == Some(t) {
      FormatParse(LastSegment(path), t);
    }
    ParseFormat(t);
  }

  /** The ValueError path: a last segment that is not 19 characters long is no timestamp. */
  lemma DecodeRejectsLength(prefix: string, entry: string)
    requires '/' !in entry && |entry| != TimestampLength
    ensures Decode(prefix + "/" + entry) == None
  {
    DecodeIgnoresPrefix(prefix, entry);
    DecodeBare(entry);
  }

  /**
   * The six fields written in the format's widths decode exactly when they name a real
   * date and time, and then to themselves: the parser checks the calendar.
   */
  lemma DecodeSpelled(t: DateTime)
    requires Spellable(t)
    ensures Decode(Spell(t)) == if ValidDateTime(t) then Some(t) else None
  {
    WellFormedIsOneSegment(Spell(t));
    DecodeBare(Spell(t));
  }

  /** The ValueError path: a well-formed timestamp naming 29 February of a common year. */
  lemma DecodeRejectsCalendar(year: int)
    requires 1 <= year <= 9999 && !IsLeapYear(year)
    ensures Decode(Spell(DateTime(year, 2, 29, 0, 0, 0))) == None
  {
    DecodeSpelled(DateTime(year, 2, 29, 0, 0, 0));
  }

  /** ... while 29 February of a leap year is accepted, up to its last second. */
  lemma DecodeAcceptsLeapDay(year: int)
    requires 1 <= year <= 9999 && IsLeapYear(year)
    ensures Decode(Spell(DateTime(year, 2, 29, 23, 59, 59))) == Some(DateTime(year, 2, 29, 23, 59, 59))
  {
    DecodeSpelled(DateTime(year, 2, 29, 23, 59, 59));
  }

  /** Inverse of splitting: the pieces glued back together with `\n` between them. */
  function JoinLines(pieces: seq<string>): string
    requires |pieces| >= 1
  {
    if |pieces| == 1 then pieces[0] else pieces[0] + "\n" + JoinLines(pieces[1..])
  }

  /** `bytes.split(b'\n')`: the pieces between newlines, in order; never an empty list. */
  function SplitLines(s: string): (pieces: seq<string>)
    ensures |pieces| >= 1
    ensures forall i :: 0 <= i < |pieces| ==> '\n' !in pieces[i]
    ensures JoinLines(pieces) == s
  {
    if |s| == 0 then [""]
    else
      var rest := SplitLines(s[1..]);
      if s[0] == '\n' then
        assert JoinLines([""] + rest) == "" + "\n" + JoinLines(rest) by {
          assert ([""] + rest)[1..] == rest;
        }
        assert s == [s[0]] + s[1..];
        [""] + rest
      else
        var pieces := [[s[0]] + rest[0]] + rest[1..];
        assert JoinLines(pieces) == [s[0]] + JoinLines(rest) by {
          if |rest| > 1 {
            assert pieces[1..] == rest[1..];
          }
        }
        assert s == [s[0]] + s[1..];
        pieces
  }

  /**
   * Keep the non-empty pieces, in order: every kept piece is a non-empty piece of the input,
   * every non-empty piece of the input is kept, and input without empty pieces is kept whole.
   * The order is NonEmptyAppend's: the pieces of a prefix come before those of the rest.
   */
  function NonEmpty(pieces: seq<string>): (kept: seq<string>)
    ensures forall i :: 0 <= i < |kept| ==> kept[i] != "" && kept[i] in pieces
    ensures forall x :: x in pieces && x != "" ==> x in kept
    ensures "" !in pieces ==> kept == pieces
    ensures |kept| <= |pieces|
  {
    if |pieces| == 0 then []
    else
      var rest := NonEmpty(pieces[1..]);
      assert pieces == [pieces[0]] + pieces[1..];
      if pieces[0] == "" then rest
      else [pieces[0]] + rest
  }

  /**
   * The list comprehension of `get_remote_snapshot_list`: the output of `ls -1` split
   * on newlines, with the empty pieces dropped. Output of a single line, with or without
   * text, gives that line or nothing; ListingAppend splits longer output at a newline.
   */
  function ListingEntries(output: string): (entries: seq<string>)
    ensures forall i :: 0 <= i < |entries| ==> entries[i] != "" && '\n' !in entries[i]
    ensures '\n' !in output ==> entries == (if output == "" then [] else [output])
  {
    if '\n' in output then NonEmpty(SplitLines(output))
    else
      SplitLinesOfLine(output);
      NonEmptyOfOne(output);
      NonEmpty(SplitLines(output))
  }

  /** A single piece is kept exactly when it is not empty. */
  lemma NonEmptyOfOne(x: string)
    ensures NonEmpty([x]) == if x == "" then [] else [x]
  {
    assert [x][1..] == [];
  }

  /** The entries of output joined at a newline: the entries of the first part, then those of the second. */
  lemma ListingAppend(a: string, b: string)
    ensures ListingEntries(a + "\n" + b) == ListingEntries(a) + ListingEntries(b)
  {
    SplitLinesAppend(a, b);
    NonEmptyAppend(SplitLines(a), SplitLines(b));
  }

  /** A blank line in the middle and a missing final newline change nothing: `a\n\nb` lists `a` then `b`. */
  lemma ListingSkipsBlankLine()
    ensures ListingEntries("a\n\nb") == ["a", "b"]
  {
    assert "a\n\nb" == "a" + "\n" + ("" + "\n" + "b");
    ListingAppend("a", "" + "\n" + "b");
    ListingAppend("", "b");
  }

  /** A name `ls -1` can print on one line. */
  predicate IsEntryName(name: string) {
    name != "" && '\n' !in name
  }

  /** What `ls -1` prints for a directory holding `names`: each name followed by a newline. */
  function Lines(names: seq<string>): string {
    if |names| == 0 then "" else names[0] + "\n" + Lines(names[1..])
  }

  lemma {:induction false} SplitLinesOfLine(a: string)
    requires '\n' !in a
    ensures SplitLines(a) == [a]
    decreases |a|
  {
    if |a| > 0 {
      assert a[0] in a;
      assert forall c :: c in a[1..] ==> c in a;
      SplitLinesOfLine(a[1..]);
      assert [a[0]] + a[1..] == a;
    }
  }

  /** Splitting distributes over a newline: the pieces of `a` followed by the pieces of `b`. */
  lemma {:induction false} SplitLinesAppend(a: string, b: string)
    ensures SplitLines(a + "\n" + b) == SplitLines(a) + SplitLines(b)
    decreases |a|
  {
    var whole := a + "\n" + b;
    if |a| == 0 {
      assert whole[0] == '\n' && whole[1..] == b;
    } else {
      assert whole[0] == a[0] && whole[1..] == a[1..] + "\n" + b;
      SplitLinesAppend(a[1..], b);
    }
  }

  lemma {:induction false} NonEmptyAppend(p: seq<string>, q: seq<string>)
    ensures NonEmpty(p + q) == NonEmpty(p) + NonEmpty(q)
    decreases |p|
  {
    if |p| > 0 {
      assert (p + q)[0] == p[0] && (p + q)[1..] == p[1..] + q;
      NonEmptyAppend(p[1..], q);
    } else {
      assert p + q == q;
    }
  }

  /** Splitting the output of `ls -1` gives back exactly the listed names, in order. */
  lemma {:induction false} ListingOfLines(names: seq<string>)
    requires forall i :: 0 <= i < |names| ==> IsEntryName(names[i])
    ensures ListingEntries(Lines(names)) == names
    decreases |names|
  {
    if |names| > 0 {
      var head, rest := names[0], names[1..];
      var tail := Lines(rest);
      assert Lines(names) == head + "\n" + tail;
      ListingAppend(head, tail);
      assert ListingEntries(head) == [head];
      assert forall i :: 0 <= i < |rest| ==> rest[i] == names[i + 1];
      ListingOfLines(rest);
      assert names == [head] + rest;
    }
  }

  /** Splitting is the inverse of joining; together with SplitLines' own contract, a bijection. */
  lemma {:induction false} SplitJoin(pieces: seq<string>)
    requires |pieces| >= 1
    requires forall i :: 0 <= i < |pieces| ==> '\n' !in pieces[i]
    ensures SplitLines(JoinLines(pieces)) == pieces
    decreases |pieces|
  {
    SplitLinesOfLine(pieces[0]);
    if |pieces| > 1 {
      SplitLinesAppend(pieces[0], JoinLines(pieces[1..]));
      SplitJoin(pieces[1..]);
      assert pieces == [pieces[0]] + pieces[1..];
    }
  }
}
