/** The `blogs` table and the queries of the post model: listing with
    pagination, lookup by id, insert, update, delete and the per-author
    listing. Each query is a pure function of the table. */
module BlogModel {
  import opened Wrappers
  import opened Paging
  import opened Numerals

  /** A row of the `blogs` table. Time stamps are milliseconds. */
  datatype Post = Post(
    id: int,
    title: string,
    description: string,
    content: string,
    imageUrl: Option<string>,
    authorId: int,
    createdAt: int,
    updatedAt: int)

  /** The table together with the next value of its `SERIAL` id sequence. */
  datatype BlogTable = BlogTable(posts: seq<Post>, nextId: int)

  /** No two rows share an id (the primary key). */
  predicate DistinctIds(s: seq<Post>) {
    forall i, j :: 0 <= i < j < |s| ==> s[i].id != s[j].id
  }

  /** Ids are positive, unique, and below the next sequence value. */
  predicate Valid(t: BlogTable) {
    && t.nextId >= 1
    && (forall i :: 0 <= i < |t.posts| ==> 1 <= t.posts[i].id < t.nextId)
    && DistinctIds(t.posts)
  }

  /** A listed row: the post and whether the viewer owns it (`is_owner`). */
  datatype Row = Row(post: Post, isOwner: bool)

  /** The `pagination` object of a listing. `totalPages` is `None` when the
      page size is zero (JSON `null`). */
  datatype PageInfo = PageInfo(totalCount: nat, totalPages: Option<nat>, currentPage: int, pageSize: int)

  datatype Listing = Listing(blogs: seq<Row>, pagination: PageInfo)

  /** The errors PostgreSQL raises for the parameters these queries bind. */
  datatype DbError =
    | NegativeOffset
    | NegativeLimit
    | InvalidInteger(text: string)
    | IntegerOutOfRange(text: string)
    | BigintOutOfRange(value: int)

  function DbMessage(e: DbError): string {
    match e
    case NegativeOffset => "OFFSET must not be negative"
    case NegativeLimit => "LIMIT must not be negative"
    case InvalidInteger(text) => "invalid input syntax for type integer: \"" + text + "\""
    case IntegerOutOfRange(text) => "value \"" + text + "\" is out of range for type integer"
    case BigintOutOfRange(value) => "value \"" + IntToString(value) + "\" is out of range for type bigint"
  }

  // ---------------------------------------------------------------------
  // Binding `LIMIT` and `OFFSET`

  /** `LIMIT` and `OFFSET` parameters are `bigint`. */
  const BigintMin: int := -0x8000_0000_0000_0000
  const BigintMax: int := 0x7FFF_FFFF_FFFF_FFFF

  predicate InBigint(v: int) {
    BigintMin <= v <= BigintMax
  }

  /** What PostgreSQL rejects in a `LIMIT $1 OFFSET $2` pair: binding reads
      the parameters in order, so a limit outside `bigint` is reported before
      an offset outside it; then the executor checks the offset for a
      negative value before the limit. */
  function PagingError(offset: int, limit: int): (r: Option<DbError>)
    ensures r.None? <==> 0 <= offset <= BigintMax && 0 <= limit <= BigintMax
    ensures r.Some? && InBigint(limit) && InBigint(offset) ==>
      r.value == (if offset < 0 then NegativeOffset else NegativeLimit)
  {
    if !InBigint(limit) then Some(BigintOutOfRange(limit))
    else if !InBigint(offset) then Some(BigintOutOfRange(offset))
    else if offset < 0 then Some(NegativeOffset)
    else if limit < 0 then Some(NegativeLimit)
    else None
  }

  // ---------------------------------------------------------------------
  // Binding a path parameter to an `integer` column

  predicate IsPgSpace(c: char) {
    c == ' ' || c == '\t' || c == '\n' || c == '\r' || c == '\U{B}' || c == '\U{C}'
  }

  predicate AllPgSpace(s: string) {
    forall k :: 0 <= k < |s| ==> IsPgSpace(s[k])
  }

  /** The text after its leading white space, where reading starts. */
  function SkipPgSpace(s: string): (r: string)
    ensures |r| <= |s|
    ensures |r| > 0 ==> !IsPgSpace(r[0])
    decreases |s|
  {
    if |s| > 0 && IsPgSpace(s[0]) then SkipPgSpace(s[1..]) else s
  }

  /** Whether a minus sign follows the leading white space. */
  predicate NegativeSign(text: string) {
    var t := SkipPgSpace(text);
    |t| > 0 && t[0] == '-'
  }

  /** The text after its leading white space and an optional sign: where
      the digits are read from. */
  function Unsigned(text: string): string {
    var t := SkipPgSpace(text);
    if |t| > 0 && (t[0] == '-' || t[0] == '+') then t[1..] else t
  }

  const IntMin: int := -0x8000_0000
  const IntMax: int := 0x7FFF_FFFF

  /** The largest value the digit loop may hold when one more digit
      arrives, -(INT_MIN / 10) in C. */
  const ScanCutoff: nat := 214_748_364

  /** The digit loop: it reads decimal digits of `s` onto the value `acc`
      read so far and stops at the first character that is no digit,
      giving the value read and the number of digits consumed. A digit
      that arrives while `acc` is above the cutoff ends the loop as out of
      range (`None`), whatever comes after it. */
  function ScanDigits(acc: nat, s: string): (r: Option<(nat, nat)>)
    ensures r.Some? ==> r.value.1 <= |s|
    decreases |s|
  {
    if |s| == 0 || DigitOf(s[0], 10).None? then Some((acc, 0))
    else if acc > ScanCutoff then None
    else OneMoreDigit(ScanDigits(acc * 10 + DigitOf(s[0], 10).value, s[1..]))
  }

  /** A reading of the rest, counting one more digit consumed. */
  function OneMoreDigit(r: Option<(nat, nat)>): Option<(nat, nat)> {
    if r.None? then None else Some((r.value.0, r.value.1 + 1))
  }

  /** PostgreSQL's `integer` input: leading white space, an optional sign
      and a run of decimal digits, which is out of range as soon as it
      overflows; then white space only, else invalid syntax; and last the
      32-bit range of the signed value. */
  function PgInteger(text: string): (r: Result<int, DbError>)
    ensures r.Ok? ==> IntMin <= r.value <= IntMax
  {
    var digits := Unsigned(text);
    match ScanDigits(0, digits)
    case None => Err(IntegerOutOfRange(text))
    case Some((m, n)) =>
      if n == 0 || !AllPgSpace(digits[n..]) then Err(InvalidInteger(text))
      else
        var v := if NegativeSign(text) then -(m as int) else m as int;
        if v < IntMin || v > IntMax then Err(IntegerOutOfRange(text)) else Ok(v)
  }

  // The same input read in closed form: the digit run of the unsigned
  // text, what follows it, and the value of its prefixes.

  lemma RunPrefixDigits(w: string, j: nat)
    requires j <= DigitRun(w, 10)
    ensures AllDigits(w[..j], 10)
  {
    var n := DigitRun(w, 10);
    assert forall k | 0 <= k < j :: w[..j][k] == w[..n][k];
  }

  /** The value of the first `j` digits of the digit run of `w`. */
  function RunValue(w: string, j: nat): nat
    requires j <= DigitRun(w, 10)
  {
    RunPrefixDigits(w, j);
    Value(w[..j], 10)
  }

  /** The run overflows while it is read: without its last digit it is
      already above the cutoff. */
  predicate RunOverflows(text: string) {
    var d := Unsigned(text);
    var n := DigitRun(d, 10);
    0 < n && RunValue(d, n - 1) > ScanCutoff
  }

  /** At least one digit, and nothing but white space after the run. */
  predicate WellFormedInteger(text: string) {
    var d := Unsigned(text);
    var n := DigitRun(d, 10);
    0 < n && AllPgSpace(d[n..])
  }

  /** The signed value of the whole digit run. */
  function SignedValue(text: string): int {
    var d := Unsigned(text);
    var m := RunValue(d, DigitRun(d, 10));
    if NegativeSign(text) then -(m as int) else m as int
  }

  lemma RunValueStep(w: string, i: nat)
    requires i < DigitRun(w, 10)
    ensures DigitOf(w[i], 10).Some?
    ensures RunValue(w, i + 1) == RunValue(w, i) * 10 + DigitOf(w[i], 10).value
  {
    var n := DigitRun(w, 10);
    assert w[..n][i] == w[i];
    RunPrefixDigits(w, i + 1);
    assert w[..i + 1][..i] == w[..i];
  }

  /** The digit run ends at or before a character that is no digit. */
  lemma {:induction false} RunEndsBefore(w: string, p: nat)
    requires p < |w| && DigitOf(w[p], 10).None?
    ensures DigitRun(w, 10) <= p
    decreases p
  {
    if p > 0 && DigitOf(w[0], 10).Some? {
      assert w[1..][p - 1] == w[p];
      RunEndsBefore(w[1..], p - 1);
    }
  }

  /** The digit run covers any prefix made of digits. */
  lemma {:induction false} RunReaches(w: string, m: nat)
    requires m <= |w| && AllDigits(w[..m], 10)
    ensures m <= DigitRun(w, 10)
    decreases m
  {
    if m > 0 {
      assert w[..m][0] == w[0];
      assert w[1..][..m - 1] == w[..m][1..];
      RunReaches(w[1..], m - 1);
    }
  }

  lemma {:induction false} RunValueMono(w: string, i: nat, j: nat)
    requires i <= j <= DigitRun(w, 10)
    ensures RunValue(w, i) <= RunValue(w, j)
    decreases j - i
  {
    if i < j {
      RunValueStep(w, j - 1);
      RunValueMono(w, i, j - 1);
    }
  }

  /** Having read the first `i` digits of the run of `w`, the loop reads
      the rest of the run, unless a digit arrives above the cutoff. */
  lemma {:induction false} ScanAt(w: string, i: nat)
    requires i <= DigitRun(w, 10)
    ensures var n := DigitRun(w, 10);
      ScanDigits(RunValue(w, i), w[i..])
        == if i < n && RunValue(w, n - 1) > ScanCutoff then None else Some((RunValue(w, n), n - i))
    decreases |w| - i
  {
    var n := DigitRun(w, 10);
    if i == n {
      ScanAtRunEnd(w, RunValue(w, i));
    } else {
      ScanDigit(w, i);
      if RunValue(w, i) > ScanCutoff {
        RunValueMono(w, i, n - 1);
      } else {
        ScanAt(w, i + 1);
      }
    }
  }

  /** At the end of the run the loop stops. */
  lemma ScanAtRunEnd(w: string, acc: nat)
    ensures ScanDigits(acc, w[DigitRun(w, 10)..]) == Some((acc, 0))
  {
    var n := DigitRun(w, 10);
    if n < |w| {
      assert w[n..][0] == w[n];
    }
  }

  /** Inside the run the loop takes one digit, or stops above the cutoff. */
  lemma ScanDigit(w: string, i: nat)
    requires i < DigitRun(w, 10)
    ensures RunValue(w, i) > ScanCutoff ==> ScanDigits(RunValue(w, i), w[i..]).None?
    ensures RunValue(w, i) <= ScanCutoff ==>
      ScanDigits(RunValue(w, i), w[i..]) == OneMoreDigit(ScanDigits(RunValue(w, i + 1), w[i + 1..]))
  {
    var s := w[i..];
    assert s[0] == w[i] && s[1..] == w[i + 1..];
    RunValueStep(w, i);
    assert RunValue(w, i) * 10 + DigitOf(s[0], 10).value == RunValue(w, i + 1);
  }

  /** The loop's reading agrees with the closed form: out of range when the
      run overflows or its signed value leaves the 32-bit range, invalid
      syntax when no digit comes or something other than white space
      follows the run, and otherwise the signed value of the run. */
  lemma PgIntegerCases(text: string)
    ensures PgInteger(text).Ok? <==> WellFormedInteger(text) && IntMin <= SignedValue(text) <= IntMax
    ensures PgInteger(text).Ok? ==> PgInteger(text).value == SignedValue(text)
    ensures PgInteger(text) == Err(InvalidInteger(text)) <==> !RunOverflows(text) && !WellFormedInteger(text)
    ensures PgInteger(text) == Err(IntegerOutOfRange(text))
      <==> RunOverflows(text) || (WellFormedInteger(text) && !(IntMin <= SignedValue(text) <= IntMax))
  {
    var d := Unsigned(text);
    var n := DigitRun(d, 10);
    assert d[..0] == [] && d[0..] == d;
    ScanAt(d, 0);
    if RunOverflows(text) {
      RunValueStep(d, n - 1);
    }
  }

  /** A numeral, with or without a minus sign, reads as itself. */
  lemma NumeralUnsigned(sign: string, d: string)
    requires sign == "" || sign == "-"
    requires |d| > 0 && DigitOf(d[0], 10).Some?
    ensures Unsigned(sign + d) == d && NegativeSign(sign + d) == (sign == "-")
  {
    var s := sign + d;
    assert s[0] == if sign == "" then d[0] else '-';
    assert !IsPgSpace(s[0]);
    assert SkipPgSpace(s) == s;
    if sign == "-" {
      assert s[1..] == d;
    } else {
      assert s == d;
    }
  }

  /** An unsigned or negative numeral is read as its value. */
  lemma ReadsNumeral(sign: string, d: string)
    requires sign == "" || sign == "-"
    requires |d| > 0 && AllDigits(d, 10)
    ensures WellFormedInteger(sign + d)
    ensures SignedValue(sign + d) == if sign == "-" then -(Value(d, 10) as int) else Value(d, 10) as int
  {
    var s := sign + d;
    NumeralUnsigned(sign, d);
    assert Unsigned(s) == d;
    assert d[..|d|] == d;
    RunReaches(d, |d|);
    assert DigitRun(d, 10) == |d|;
    assert d[|d|..] == [];
    assert RunValue(d, |d|) == Value(d, 10);
  }

  /** Every integer of the column's range is written by `String(i)` as a
      text the parameter binding reads back unchanged. */
  lemma PgIntegerOfInt(i: int)
    requires IntMin <= i <= IntMax
    ensures PgInteger(IntToString(i)) == Ok(i)
  {
    if i >= 0 {
      var d := NatToString(i);
      NatToStringValue(i);
      PgIntegerOfDigits("", d);
      assert IntToString(i) == "" + d;
    } else {
      var d := NatToString(-i);
      NatToStringValue(-i);
      PgIntegerOfDigits("-", d);
      assert IntToString(i) == "-" + d;
    }
  }

  /** A post id, written as `String(id)`, binds back to itself. */
  lemma PgIntegerOfId(n: nat)
    requires n <= IntMax
    ensures PgInteger(NatToString(n)) == Ok(n)
  {
    var d := NatToString(n);
    NatToStringValue(n);
    PgIntegerOfDigits("", d);
    assert "" + d == d;
  }

  /** A numeral of the column's range, with or without a minus sign, is
      read as its signed value. */
  lemma PgIntegerOfDigits(sign: string, d: string)
    requires sign == "" || sign == "-"
    requires |d| > 0 && AllDigits(d, 10)
    requires if sign == "-" then Value(d, 10) <= -IntMin else Value(d, 10) <= IntMax
    ensures PgInteger(sign + d) == Ok(if sign == "-" then -(Value(d, 10) as int) else Value(d, 10) as int)
  {
    ReadsNumeral(sign, d);
    PgIntegerAccepts(sign + d);
  }

  lemma PgIntegerAccepts(text: string)
    requires WellFormedInteger(text) && IntMin <= SignedValue(text) <= IntMax
    ensures PgInteger(text) == Ok(SignedValue(text))
  {
    PgIntegerCases(text);
  }

  /** Leading white space is skipped whatever follows it. */
  lemma {:induction false} SkipLeadingSpace(w: string, rest: string)
    requires AllPgSpace(w)
    ensures SkipPgSpace(w + rest) == SkipPgSpace(rest)
    decreases |w|
  {
    if |w| > 0 {
      assert (w + rest)[1..] == w[1..] + rest;
      SkipLeadingSpace(w[1..], rest);
    } else {
      assert w + rest == rest;
    }
  }

  /** Skipping white space keeps a suffix, which starts at or before any
      other character. */
  lemma {:induction false} SkipStopsAt(s: string, k: nat)
    requires k < |s| && !IsPgSpace(s[k])
    ensures |s| - |SkipPgSpace(s)| <= k
    ensures SkipPgSpace(s) == s[|s| - |SkipPgSpace(s)|..]
    decreases |s|
  {
    if IsPgSpace(s[0]) {
      assert s[1..][k - 1] == s[k];
      SkipStopsAt(s[1..], k - 1);
      assert s[1..][|s| - 1 - |SkipPgSpace(s)|..] == s[|s| - |SkipPgSpace(s)|..];
    }
  }

  /** A text holding a character that is no digit, sign or white space is
      invalid syntax, as `'1.5'`, `'1e3'` and `'abc'` are, unless the digit
      run before it has already overflowed. */
  lemma PgIntegerRejectsForeign(text: string, k: nat)
    requires k < |text|
    requires DigitOf(text[k], 10).None? && text[k] != '-' && text[k] != '+' && !IsPgSpace(text[k])
    ensures PgInteger(text) == if RunOverflows(text) then Err(IntegerOutOfRange(text)) else Err(InvalidInteger(text))
  {
    ForeignIllFormed(text, k);
    PgIntegerCases(text);
  }

  lemma ForeignIllFormed(text: string, k: nat)
    requires k < |text|
    requires DigitOf(text[k], 10).None? && text[k] != '-' && text[k] != '+' && !IsPgSpace(text[k])
    ensures !WellFormedInteger(text)
  {
    var p := ForeignInUnsigned(text, k);
    var d := Unsigned(text);
    RunEndsBefore(d, p);
    var n := DigitRun(d, 10);
    assert d[n..][p - n] == d[p];
  }

  /** A character other than white space or a sign stays in the unsigned
      text, at the index returned. */
  lemma ForeignInUnsigned(text: string, k: nat) returns (p: nat)
    requires k < |text| && text[k] != '-' && text[k] != '+' && !IsPgSpace(text[k])
    ensures p < |Unsigned(text)| && Unsigned(text)[p] == text[k]
  {
    var t := SkipPgSpace(text);
    SkipStopsAt(text, k);
    var j := k - (|text| - |t|);
    assert t[j] == text[k];
    p := if t[0] == '-' || t[0] == '+' then j - 1 else j;
  }

  /** A run of digits that overflows is out of range whatever follows it:
      the loop stops before it looks at the rest. */
  lemma PgIntegerOverflowFirst(d: string, rest: string)
    requires |d| >= 2 && AllDigits(d, 10) && Value(d[..|d| - 1], 10) > ScanCutoff
    ensures PgInteger(d + rest) == Err(IntegerOutOfRange(d + rest))
  {
    RunOverflowsEarly(d, rest);
    PgIntegerCases(d + rest);
  }

  lemma RunOverflowsEarly(d: string, rest: string)
    requires |d| >= 2 && AllDigits(d, 10) && Value(d[..|d| - 1], 10) > ScanCutoff
    ensures RunOverflows(d + rest)
  {
    var s := d + rest;
    RunOfNumeralPrefix(d, rest);
    RunValueMono(s, |d| - 1, DigitRun(s, 10) - 1);
  }

  /** `'99999999999x'` is out of range, not invalid syntax: its run has
      overflowed before the `x` is read. */
  lemma PgIntegerOverflowExample()
    ensures PgInteger("99999999999x") == Err(IntegerOutOfRange("99999999999x"))
  {
    var nines := "99999999999";
    assert nines[..10] == seq(10, _ => '9');
    NinesValue(10);
    assert Pow10(10) == 10_000_000_000;
    assert nines + "x" == "99999999999x";
    PgIntegerOverflowFirst(nines, "x");
  }

  /** A run of digits that has not overflowed before its last digit,
      followed by a character that is no digit, sign or white space, is
      invalid syntax. */
  lemma PgIntegerRunThenForeign(d: string, rest: string)
    requires |d| > 0 && AllDigits(d, 10) && Value(d[..|d| - 1], 10) <= ScanCutoff
    requires |rest| > 0 && DigitOf(rest[0], 10).None? && rest[0] != '-' && rest[0] != '+' && !IsPgSpace(rest[0])
    ensures PgInteger(d + rest) == Err(InvalidInteger(d + rest))
  {
    var s := d + rest;
    assert s[|d|] == rest[0];
    PgIntegerRejectsForeign(s, |d|);
    RunEndsAtForeign(d, rest);
  }

  lemma RunEndsAtForeign(d: string, rest: string)
    requires |d| > 0 && AllDigits(d, 10) && Value(d[..|d| - 1], 10) <= ScanCutoff
    requires |rest| > 0 && DigitOf(rest[0], 10).None?
    ensures Unsigned(d + rest) == d + rest && DigitRun(d + rest, 10) == |d|
    ensures !RunOverflows(d + rest)
  {
    var s := d + rest;
    RunOfNumeralPrefix(d, rest);
    assert s[|d|] == rest[0];
    RunEndsBefore(s, |d|);
  }

  /** A text that starts with the digits `d` is read from its start, and
      its run takes in `d`. */
  lemma RunOfNumeralPrefix(d: string, rest: string)
    requires |d| > 0 && AllDigits(d, 10)
    ensures Unsigned(d + rest) == d + rest
    ensures |d| <= DigitRun(d + rest, 10)
    ensures RunValue(d + rest, |d| - 1) == Value(d[..|d| - 1], 10)
  {
    var s := d + rest;
    assert s[0] == d[0] && "" + s == s;
    NumeralUnsigned("", s);
    assert s[..|d|] == d;
    RunReaches(s, |d|);
    assert s[..|d| - 1] == d[..|d| - 1];
  }

  /** `'2147483648x'` is invalid syntax: before its last digit the run is
      at the cutoff, not above it. */
  lemma PgIntegerCutoffExample()
    ensures PgInteger("2147483648x") == Err(InvalidInteger("2147483648x"))
  {
    var d := "2147483648";
    assert d[..9] == "214748364";
    CutoffNumeral();
    assert d + "x" == "2147483648x";
    PgIntegerRunThenForeign(d, "x");
  }

  lemma {:induction false} NinesValue(k: nat)
    ensures AllDigits(seq(k, _ => '9'), 10) && Value(seq(k, _ => '9'), 10) + 1 == Pow10(k)
  {
    if k > 0 {
      var s := seq(k, _ => '9');
      assert s[..k - 1] == seq(k - 1, _ => '9');
      NinesValue(k - 1);
    }
  }

  lemma CutoffNumeral()
    ensures Value("214748364", 10) == ScanCutoff
  {
    NumeralPrefix();
    assert "2147483"[..6] == "214748";
    assert Value("2147483", 10) == 2147483;
    assert "21474836"[..7] == "2147483";
    assert Value("21474836", 10) == 21474836;
    assert "214748364"[..8] == "21474836";
  }

  lemma NumeralPrefix()
    ensures Value("214748", 10) == 214748
  {
    assert Value("2", 10) == 2;
    assert "21"[..1] == "2";
    assert Value("21", 10) == 21;
    assert "214"[..2] == "21";
    assert Value("214", 10) == 214;
    assert "2147"[..3] == "214";
    assert Value("2147", 10) == 2147;
    assert "21474"[..4] == "2147";
    assert Value("21474", 10) == 21474;
    assert "214748"[..5] == "21474";
  }

  /** A blank text, or a sign with no digits after it, is invalid syntax. */
  lemma PgIntegerRejectsBlank(text: string, sign: string)
    requires sign == "" || sign == "-" || sign == "+"
    requires AllPgSpace(text)
    ensures PgInteger(text + sign) == Err(InvalidInteger(text + sign))
  {
    SkipLeadingSpace(text, sign);
    assert Unsigned(text + sign) == [];
  }

  // ---------------------------------------------------------------------
  // Ownership

  /** `userId || null`: an absent or zero viewer id binds SQL NULL. */
  function Viewer(userId: Option<int>): Option<int> {
    if userId.Some? && userId.value != 0 then userId else None
  }

  /** `CASE WHEN b.author_id = $viewer THEN true ELSE false END`; a
      comparison with NULL is never true. */
  predicate IsOwner(p: Post, userId: Option<int>) {
    Viewer(userId).Some? && p.authorId == Viewer(userId).value
  }

  /** Ownership is equality of the author with a present, non-zero viewer. */
  lemma IsOwnerIff(p: Post, userId: Option<int>)
    ensures IsOwner(p, userId) <==> userId.Some? && userId.value != 0 && userId.value == p.authorId
    ensures userId.None? ==> !IsOwner(p, userId)
  {
  }

  function Annotate(s: seq<Post>, userId: Option<int>): (r: seq<Row>)
    ensures |r| == |s|
    ensures forall k :: 0 <= k < |r| ==> r[k] == Row(s[k], IsOwner(s[k], userId))
  {
    seq(|s|, k requires 0 <= k < |s| => Row(s[k], IsOwner(s[k], userId)))
  }

  function PostsOf(rows: seq<Row>): (r: seq<Post>)
    ensures |r| == |rows|
    ensures forall k :: 0 <= k < |r| ==> r[k] == rows[k].post
  {
    seq(|rows|, k requires 0 <= k < |rows| => rows[k].post)
  }

  // ---------------------------------------------------------------------
  // ORDER BY created_at DESC

  /** Newest first: no row is followed by a strictly newer one. */
  predicate NewestFirstOrder(s: seq<Post>) {
    forall i, j :: 0 <= i < j < |s| ==> s[i].createdAt >= s[j].createdAt
  }

  /** Inserts `p` before the first row that is not newer than it. */
  function InsertByDate(p: Post, s: seq<Post>): (r: seq<Post>)
    ensures |r| == |s| + 1
    ensures multiset(r) == multiset(s) + multiset{p}
    decreases |s|
  {
    if |s| == 0 || s[0].createdAt <= p.createdAt then
      [p] + s
    else
      assert s == [s[0]] + s[1..];
      [s[0]] + InsertByDate(p, s[1..])
  }

  /** Putting a row in front of rows that are not newer keeps the order. */
  lemma ConsOrdered(x: Post, s: seq<Post>)
    requires NewestFirstOrder(s)
    requires forall j :: 0 <= j < |s| ==> s[j].createdAt <= x.createdAt
    ensures NewestFirstOrder([x] + s)
  {
    var r := [x] + s;
    forall i, j | 0 <= i < j < |r| ensures r[i].createdAt >= r[j].createdAt {
      assert r[j] == s[j - 1];
      if i > 0 {
        assert r[i] == s[i - 1];
      }
    }
  }

  lemma TailOrdered(s: seq<Post>)
    requires |s| > 0 && NewestFirstOrder(s)
    ensures NewestFirstOrder(s[1..])
    ensures forall j :: 0 <= j < |s[1..]| ==> s[1..][j].createdAt <= s[0].createdAt
  {
    var tail := s[1..];
    forall i, j | 0 <= i < j < |tail| ensures tail[i].createdAt >= tail[j].createdAt {
      assert tail[i] == s[i + 1] && tail[j] == s[j + 1];
    }
    forall j | 0 <= j < |tail| ensures tail[j].createdAt <= s[0].createdAt {
      assert tail[j] == s[j + 1];
    }
  }

  lemma {:induction false} InsertByDateOrdered(p: Post, s: seq<Post>)
    requires NewestFirstOrder(s)
    ensures NewestFirstOrder(InsertByDate(p, s))
    decreases |s|
  {
    if |s| == 0 || s[0].createdAt <= p.createdAt {
      if |s| > 0 {
        forall j | 0 <= j < |s| ensures s[j].createdAt <= p.createdAt {
          if j > 0 {
            assert s[0].createdAt >= s[j].createdAt;
          }
        }
      }
      ConsOrdered(p, s);
    } else {
      var tail := s[1..];
      TailOrdered(s);
      InsertByDateOrdered(p, tail);
      var rest := InsertByDate(p, tail);
      forall j | 0 <= j < |rest| ensures rest[j].createdAt <= s[0].createdAt {
        var q := rest[j];
        assert q in multiset(rest);
        if q != p {
          assert q in multiset(tail);
          var k :| 0 <= k < |tail| && tail[k] == q;
        }
      }
      ConsOrdered(s[0], rest);
    }
  }

  /** The rows ordered by `created_at` descending. SQL leaves the order of
      rows with equal time stamps open; this ordering keeps them in table
      order. */
  function NewestFirst(s: seq<Post>): (r: seq<Post>)
    ensures |r| == |s|
    ensures multiset(r) == multiset(s)
    ensures NewestFirstOrder(r)
    decreases |s|
  {
    if |s| == 0 then []
    else
      assert s == [s[0]] + s[1..];
      InsertByDateOrdered(s[0], NewestFirst(s[1..]));
      InsertByDate(s[0], NewestFirst(s[1..]))
  }

  /** An already ordered table is returned as it is. */
  lemma {:induction false} NewestFirstOfOrdered(s: seq<Post>)
    requires NewestFirstOrder(s)
    ensures NewestFirst(s) == s
    decreases |s|
  {
    if |s| > 0 {
      assert NewestFirstOrder(s[1..]) by {
        forall i, j | 0 <= i < j < |s[1..]| ensures s[1..][i].createdAt >= s[1..][j].createdAt {
          assert s[1..][i] == s[i + 1] && s[1..][j] == s[j + 1];
        }
      }
      NewestFirstOfOrdered(s[1..]);
      if |s| > 1 {
        assert s[1..][0] == s[1];
        assert s[1].createdAt <= s[0].createdAt;
      }
      assert [s[0]] + s[1..] == s;
    }
  }

  // ---------------------------------------------------------------------
  // Queries

  /** `getAll(page, limit, userId)`: the count of all rows, then the page
      of rows ordered newest first with `is_owner` for the viewer. */
  function GetAll(t: BlogTable, page: int, limit: int, userId: Option<int>): (r: Result<Listing, DbError>)
    ensures r.Ok? <==> 0 <= Offset(page, limit) <= BigintMax && 0 <= limit <= BigintMax
    ensures r.Err? ==> Some(r.error) == PagingError(Offset(page, limit), limit)
    ensures r.Ok? ==> r.value.pagination == PageInfo(|t.posts|, TotalPages(|t.posts|, limit), page, limit)
    ensures r.Ok? ==> |r.value.blogs| == PageLength(|t.posts|, Offset(page, limit), limit)
    ensures r.Ok? ==> forall k :: 0 <= k < |r.value.blogs| ==>
      && r.value.blogs[k].post == NewestFirst(t.posts)[Offset(page, limit) + k]
      && (r.value.blogs[k].isOwner <==> IsOwner(r.value.blogs[k].post, userId))
  {
    var offset := Offset(page, limit);
    match PagingError(offset, limit)
    case Some(e) => Err(e)
    case None =>
      Ok(Listing(
        Annotate(PageSlice(NewestFirst(t.posts), offset, limit), userId),
        PageInfo(|t.posts|, TotalPages(|t.posts|, limit), page, limit)))
  }

  /** The first row with the given id (`rows[0]`), if any. */
  function FindPost(s: seq<Post>, id: int): (r: Option<Post>)
    ensures r.Some? ==> r.value in s && r.value.id == id
    ensures r.None? <==> forall k :: 0 <= k < |s| ==> s[k].id != id
    decreases |s|
  {
    if |s| == 0 then None
    else if s[0].id == id then Some(s[0])
    else FindPost(s[1..], id)
  }

  /** With unique ids, the post found is the one at the position holding
      that id. */
  lemma FindPostAt(s: seq<Post>, k: int)
    requires 0 <= k < |s|
    requires DistinctIds(s)
    ensures FindPost(s, s[k].id) == Some(s[k])
  {
    var r := FindPost(s, s[k].id);
    var i :| 0 <= i < |s| && s[i] == r.value;
  }

  /** `getById(id, userId)`: the row with that id and its `is_owner` flag;
      an id that is not an integer literal makes the query fail. */
  function GetById(t: BlogTable, id: string, userId: Option<int>): (r: Result<Option<Row>, DbError>)
    ensures PgInteger(id).Err? ==> r == Err(PgInteger(id).error)
    ensures PgInteger(id).Ok? ==> r.Ok?
    ensures r.Ok? ==> (r.value.None? <==> forall k :: 0 <= k < |t.posts| ==> t.posts[k].id != PgInteger(id).value)
    ensures r.Ok? && r.value.Some? ==>
      && r.value.value.post in t.posts
      && r.value.value.post.id == PgInteger(id).value
      && (r.value.value.isOwner <==> IsOwner(r.value.value.post, userId))
  {
    var key :- PgInteger(id);
    match FindPost(t.posts, key)
    case None => Ok(None)
    case Some(p) => Ok(Some(Row(p, IsOwner(p, userId))))
  }

  /** `create(...)`: inserts a row owned by `userId`; the id comes from the
      sequence and both time stamps default to the current time. */
  function Create(t: BlogTable, title: string, description: string, content: string,
                  imageUrl: Option<string>, userId: int, now: int): (r: (BlogTable, Post))
    ensures r.1 == Post(t.nextId, title, description, content, imageUrl, userId, now, now)
    ensures r.0.posts == t.posts + [r.1]
    ensures r.0.nextId == t.nextId + 1
    ensures Valid(t) ==> Valid(r.0)
  {
    var p := Post(t.nextId, title, description, content, imageUrl, userId, now, now);
    (BlogTable(t.posts + [p], t.nextId + 1), p)
  }

  /** The row with the edited fields and a fresh `updated_at`. */
  function Edited(p: Post, title: string, description: string, content: string,
                  imageUrl: Option<string>, now: int): (r: Post)
    ensures r.id == p.id && r.authorId == p.authorId && r.createdAt == p.createdAt
  {
    p.(title := title, description := description, content := content, imageUrl := imageUrl, updatedAt := now)
  }

  function EditRows(s: seq<Post>, id: int, title: string, description: string, content: string,
                    imageUrl: Option<string>, now: int): (r: seq<Post>)
    ensures |r| == |s|
    ensures forall k :: 0 <= k < |s| ==>
      r[k] == if s[k].id == id then Edited(s[k], title, description, content, imageUrl, now) else s[k]
  {
    seq(|s|, k requires 0 <= k < |s| =>
      if s[k].id == id then Edited(s[k], title, description, content, imageUrl, now) else s[k])
  }

  /** `update(id, ...)`: rewrites title, description, content, image and
      `updated_at` of the row with that id and returns it (`RETURNING *`),
      or nothing when no row has that id. */
  function Update(t: BlogTable, id: string, title: string, description: string, content: string,
                  imageUrl: Option<string>, now: int): (r: Result<(BlogTable, Option<Post>), DbError>)
    ensures PgInteger(id).Err? ==> r == Err(PgInteger(id).error)
    ensures PgInteger(id).Ok? ==> r.Ok?
    ensures r.Ok? ==> r.value.0.nextId == t.nextId && |r.value.0.posts| == |t.posts|
    ensures r.Ok? ==> forall k :: 0 <= k < |t.posts| ==>
      r.value.0.posts[k] ==
        if t.posts[k].id == PgInteger(id).value
        then Edited(t.posts[k], title, description, content, imageUrl, now)
        else t.posts[k]
    ensures r.Ok? ==> r.value.1 == FindPost(r.value.0.posts, PgInteger(id).value)
  {
    var key :- PgInteger(id);
    var rows := EditRows(t.posts, key, title, description, content, imageUrl, now);
    Ok((BlogTable(rows, t.nextId), FindPost(rows, key)))
  }

  function RemoveId(s: seq<Post>, id: int): (r: seq<Post>)
    ensures forall q :: q in r <==> q in s && q.id != id
    ensures |r| <= |s|
    decreases |s|
  {
    if |s| == 0 then []
    else if s[0].id == id then RemoveId(s[1..], id)
    else
      assert s == [s[0]] + s[1..];
      [s[0]] + RemoveId(s[1..], id)
  }

  /** `delete(id)`: removes the row with that id, if any. */
  function Delete(t: BlogTable, id: string): (r: Result<BlogTable, DbError>)
    ensures PgInteger(id).Err? ==> r == Err(PgInteger(id).error)
    ensures PgInteger(id).Ok? ==> r.Ok?
    ensures r.Ok? ==> r.value.nextId == t.nextId
    ensures r.Ok? ==> forall q :: q in r.value.posts <==> q in t.posts && q.id != PgInteger(id).value
  {
    var key :- PgInteger(id);
    Ok(BlogTable(RemoveId(t.posts, key), t.nextId))
  }

  /** The rows whose author is `author`; a NULL author matches nothing. */
  function ByAuthor(s: seq<Post>, author: Option<int>): (r: seq<Post>)
    ensures forall q :: q in r <==> q in s && author == Some(q.authorId)
    ensures |r| <= |s|
    decreases |s|
  {
    if |s| == 0 then []
    else if author == Some(s[0].authorId) then
      assert s == [s[0]] + s[1..];
      [s[0]] + ByAuthor(s[1..], author)
    else ByAuthor(s[1..], author)
  }

  function MarkOwned(s: seq<Post>): (r: seq<Row>)
    ensures |r| == |s|
    ensures forall k :: 0 <= k < |r| ==> r[k] == Row(s[k], true)
  {
    seq(|s|, k requires 0 <= k < |s| => Row(s[k], true))
  }

  /** `getByUserId(userId, page, limit)`: like `getAll`, restricted to one
      author both in the count and in the rows, every row marked owned. */
  function GetByUserId(t: BlogTable, userId: Option<int>, page: int, limit: int): (r: Result<Listing, DbError>)
    ensures r.Ok? <==> 0 <= Offset(page, limit) <= BigintMax && 0 <= limit <= BigintMax
    ensures r.Err? ==> Some(r.error) == PagingError(Offset(page, limit), limit)
    ensures r.Ok? ==>
      r.value.pagination == PageInfo(|ByAuthor(t.posts, userId)|, TotalPages(|ByAuthor(t.posts, userId)|, limit), page, limit)
    ensures r.Ok? ==> |r.value.blogs| == PageLength(|ByAuthor(t.posts, userId)|, Offset(page, limit), limit)
    ensures r.Ok? ==> forall k :: 0 <= k < |r.value.blogs| ==>
      && r.value.blogs[k].post == NewestFirst(ByAuthor(t.posts, userId))[Offset(page, limit) + k]
      && r.value.blogs[k].isOwner
  {
    OwnListing(ByAuthor(t.posts, userId), page, limit)
  }

  /** The author listing over the author's rows `mine`. */
  function OwnListing(mine: seq<Post>, page: int, limit: int): (r: Result<Listing, DbError>)
    ensures r.Ok? <==> 0 <= Offset(page, limit) <= BigintMax && 0 <= limit <= BigintMax
    ensures r.Err? ==> Some(r.error) == PagingError(Offset(page, limit), limit)
    ensures r.Ok? ==> r.value.pagination == PageInfo(|mine|, TotalPages(|mine|, limit), page, limit)
    ensures r.Ok? ==> |r.value.blogs| == PageLength(|mine|, Offset(page, limit), limit)
    ensures r.Ok? ==> forall k :: 0 <= k < |r.value.blogs| ==>
      && r.value.blogs[k].post == NewestFirst(mine)[Offset(page, limit) + k]
      && r.value.blogs[k].isOwner
  {
    var offset := Offset(page, limit);
    match PagingError(offset, limit)
    case Some(e) => Err(e)
    case None =>
      Ok(Listing(
        MarkOwned(PageSlice(NewestFirst(mine), offset, limit)),
        PageInfo(|mine|, TotalPages(|mine|, limit), page, limit)))
  }

  // ---------------------------------------------------------------------
  // Properties across queries

  /** A created post is found again by its id, unchanged, with `is_owner`
      for whoever looks. */
  lemma CreateThenGetById(t: BlogTable, title: string, description: string, content: string,
                          imageUrl: Option<string>, userId: int, now: int, viewer: Option<int>)
    requires Valid(t) && t.nextId <= IntMax
    ensures var (t', p) := Create(t, title, description, content, imageUrl, userId, now);
      && p.title == title && p.description == description && p.content == content
      && p.imageUrl == imageUrl && p.authorId == userId
      && GetById(t', NatToString(p.id), viewer) == Ok(Some(Row(p, IsOwner(p, viewer))))
  {
    var (t', p) := Create(t, title, description, content, imageUrl, userId, now);
    PgIntegerOfId(p.id);
    FindPostAt(t'.posts, |t.posts|);
  }

  /** An update keeps the table valid. */
  lemma UpdatePreservesValid(t: BlogTable, id: string, title: string, description: string,
                             content: string, imageUrl: Option<string>, now: int)
    requires Valid(t)
    ensures var r := Update(t, id, title, description, content, imageUrl, now);
      r.Ok? ==> Valid(r.value.0)
  {
  }

  /** When the id is present, the update returns the edited row, whose
      author is the original author. */
  lemma UpdateReturnsEdited(t: BlogTable, k: int, title: string, description: string,
                            content: string, imageUrl: Option<string>, now: int)
    requires Valid(t) && t.nextId <= IntMax && 0 <= k < |t.posts|
    ensures var r := Update(t, NatToString(t.posts[k].id), title, description, content, imageUrl, now);
      && r.Ok?
      && r.value.1 == Some(Edited(t.posts[k], title, description, content, imageUrl, now))
      && r.value.1.value.authorId == t.posts[k].authorId
  {
    PgIntegerOfId(t.posts[k].id);
    var r := Update(t, NatToString(t.posts[k].id), title, description, content, imageUrl, now);
    FindPostAt(r.value.0.posts, k);
  }

  lemma TailDistinct(s: seq<Post>)
    requires |s| > 0 && DistinctIds(s)
    ensures DistinctIds(s[1..])
    ensures forall q :: q in s[1..] ==> q.id != s[0].id
  {
    var tail := s[1..];
    forall i, j | 0 <= i < j < |tail| ensures tail[i].id != tail[j].id {
      assert tail[i] == s[i + 1] && tail[j] == s[j + 1];
    }
    forall q | q in tail ensures q.id != s[0].id {
      var m :| 0 <= m < |tail| && tail[m] == q;
      assert s[m + 1] == q;
    }
  }

  lemma {:induction false} RemoveIdAbsent(s: seq<Post>, id: int)
    requires forall k :: 0 <= k < |s| ==> s[k].id != id
    ensures RemoveId(s, id) == s
    decreases |s|
  {
    if |s| > 0 {
      assert forall k :: 0 <= k < |s[1..]| ==> s[1..][k].id != id by {
        forall k | 0 <= k < |s[1..]| ensures s[1..][k].id != id {
          assert s[1..][k] == s[k + 1];
        }
      }
      RemoveIdAbsent(s[1..], id);
      assert [s[0]] + s[1..] == s;
    }
  }

  lemma {:induction false} RemoveIdDistinct(s: seq<Post>, id: int)
    requires DistinctIds(s)
    ensures DistinctIds(RemoveId(s, id))
    decreases |s|
  {
    if |s| > 0 {
      TailDistinct(s);
      RemoveIdDistinct(s[1..], id);
      if s[0].id != id {
        var rt := RemoveId(s[1..], id);
        var r := [s[0]] + rt;
        forall i, j | 0 <= i < j < |r| ensures r[i].id != r[j].id {
          assert r[j] == rt[j - 1];
          assert r[j] in rt;
          if i > 0 {
            assert r[i] == rt[i - 1];
          }
        }
      }
    }
  }

  /** With unique ids, deleting a present id removes exactly one row. */
  lemma {:induction false} RemoveIdPresent(s: seq<Post>, id: int, k: int)
    requires DistinctIds(s)
    requires 0 <= k < |s| && s[k].id == id
    ensures |RemoveId(s, id)| == |s| - 1
    decreases |s|
  {
    TailDistinct(s);
    if k == 0 {
      assert forall m :: 0 <= m < |s[1..]| ==> s[1..][m].id != id by {
        forall m | 0 <= m < |s[1..]| ensures s[1..][m].id != id {
          assert s[1..][m] in s[1..];
        }
      }
      RemoveIdAbsent(s[1..], id);
    } else {
      assert s[1..][k - 1] == s[k];
      assert s[k] in s[1..];
      RemoveIdPresent(s[1..], id, k - 1);
    }
  }

  lemma DeletePreservesValid(t: BlogTable, id: string)
    requires Valid(t)
    ensures Delete(t, id).Ok? ==> Valid(Delete(t, id).value)
    ensures Delete(t, id).Ok? && (exists k :: 0 <= k < |t.posts| && t.posts[k].id == PgInteger(id).value)
      ==> |Delete(t, id).value.posts| == |t.posts| - 1
    ensures Delete(t, id).Ok? && (forall k :: 0 <= k < |t.posts| ==> t.posts[k].id != PgInteger(id).value)
      ==> Delete(t, id).value == t
  {
    if PgInteger(id).Ok? {
      var key := PgInteger(id).value;
      assert Delete(t, id) == Ok(BlogTable(RemoveId(t.posts, key), t.nextId));
      RemoveKeyPreservesValid(t, key);
    }
  }

  lemma RemoveKeyPreservesValid(t: BlogTable, key: int)
    requires Valid(t)
    ensures var t' := BlogTable(RemoveId(t.posts, key), t.nextId);
      && Valid(t')
      && ((exists k :: 0 <= k < |t.posts| && t.posts[k].id == key) ==> |t'.posts| == |t.posts| - 1)
      && ((forall k :: 0 <= k < |t.posts| ==> t.posts[k].id != key) ==> t' == t)
  {
    RemoveIdDistinct(t.posts, key);
    if exists k :: 0 <= k < |t.posts| && t.posts[k].id == key {
      var k :| 0 <= k < |t.posts| && t.posts[k].id == key;
      RemoveIdPresent(t.posts, key, k);
    } else {
      RemoveIdAbsent(t.posts, key);
    }
  }

  /** The posts one `getAll` page shows; a page the database rejects shows
      none. */
  function PagePosts(t: BlogTable, page: int, limit: int, userId: Option<int>): (r: seq<Post>)
    ensures GetAll(t, page, limit, userId).Ok? ==> |r| == |GetAll(t, page, limit, userId).value.blogs|
    ensures GetAll(t, page, limit, userId).Err? ==> r == []
  {
    match GetAll(t, page, limit, userId)
    case Ok(listing) => PostsOf(listing.blogs)
    case Err(_) => []
  }

  /** The general listing as a reader of pages. */
  function PageReader(t: BlogTable, limit: nat, userId: Option<int>): nat -> seq<Post> {
    p => PagePosts(t, p, limit, userId)
  }

  /** The posts of pages `page`, `page + 1`, ... (`count` of them) of the
      general listing, read one after the other. */
  function ListedPosts(t: BlogTable, limit: nat, userId: Option<int>, page: nat, count: nat): seq<Post> {
    ReadWith(PageReader(t, limit, userId), page, count)
  }

  /** A table and a page size that fit in `bigint`. */
  predicate FitsBigint(t: BlogTable, limit: int) {
    limit <= BigintMax && |t.posts| <= BigintMax
  }

  /** Pages `page` to `page + count - 1` of the listing are the pages of the
      newest-first table that `ReadPages` cuts. */
  lemma ListedPostsArePages(t: BlogTable, limit: nat, userId: Option<int>, page: nat, count: nat)
    requires limit > 0 && page >= 1 && FitsBigint(t, limit)
    ensures ListedPosts(t, limit, userId, page, count) == ReadPages(NewestFirst(t.posts), limit, page, count)
  {
    var reader := PageReader(t, limit, userId);
    var s := NewestFirst(t.posts);
    forall p: nat | page <= p < page + count
      ensures reader(p) == PageSlice(s, Offset(p, limit), limit)
    {
      GetAllPage(t, p, limit, userId);
    }
    ReadWithPages(reader, s, limit, page, count);
  }

  /** The posts of one `getAll` page are the page's slice of the ordered
      table; a page past `bigint` lies past the last row, so that its
      rejection hides nothing. */
  lemma GetAllPage(t: BlogTable, page: nat, limit: nat, userId: Option<int>)
    requires limit > 0 && page >= 1 && FitsBigint(t, limit)
    ensures Offset(page, limit) <= BigintMax ==> GetAll(t, page, limit, userId).Ok?
    ensures PagePosts(t, page, limit, userId) == PageSlice(NewestFirst(t.posts), Offset(page, limit), limit)
  {
    var rows := PageSlice(NewestFirst(t.posts), Offset(page, limit), limit);
    if Offset(page, limit) <= BigintMax {
      assert PostsOf(Annotate(rows, userId)) == rows;
    } else {
      assert |rows| == 0;
    }
  }

  /** Paging through the general listing from page 1 to `totalPages` shows
      every post exactly once, newest first, whoever the viewer is. */
  lemma EveryPostListedOnce(t: BlogTable, limit: nat, userId: Option<int>)
    requires limit > 0 && FitsBigint(t, limit)
    ensures var r := GetAll(t, 1, limit, userId);
      && r.Ok? && r.value.pagination.totalPages == Some(CeilDiv(|t.posts|, limit))
      && var shown := ListedPosts(t, limit, userId, 1, CeilDiv(|t.posts|, limit));
         multiset(shown) == multiset(t.posts) && NewestFirstOrder(shown)
  {
    ListedPostsArePages(t, limit, userId, 1, CeilDiv(|t.posts|, limit));
    PagesPartition(NewestFirst(t.posts), limit);
  }

  /** The author listing's hard-wired `is_owner = true` agrees with the
      general listing's comparison: every row it shows is the author's. */
  lemma OwnListingIsOwned(t: BlogTable, userId: int, page: int, limit: int)
    requires userId != 0
    ensures var r := GetByUserId(t, Some(userId), page, limit);
      r.Ok? ==> forall k :: 0 <= k < |r.value.blogs| ==>
        && r.value.blogs[k].post in t.posts
        && r.value.blogs[k].post.authorId == userId
        && IsOwner(r.value.blogs[k].post, Some(userId))
  {
    var r := GetByUserId(t, Some(userId), page, limit);
    if r.Ok? {
      var mine := ByAuthor(t.posts, Some(userId));
      forall k | 0 <= k < |r.value.blogs|
        ensures r.value.blogs[k].post in mine
      {
        var q := r.value.blogs[k].post;
        assert q == NewestFirst(mine)[Offset(page, limit) + k];
        assert q in multiset(NewestFirst(mine));
      }
    }
  }

  /** An anonymous author listing (no user id bound) is empty. */
  lemma AnonymousOwnListingEmpty(t: BlogTable, page: int, limit: int)
    ensures var r := GetByUserId(t, None, page, limit);
      r.Ok? ==> r.value.blogs == [] && r.value.pagination.totalCount == 0
  {
    ByAuthorNone(t.posts);
    assert |NewestFirst(ByAuthor(t.posts, None))| == 0;
  }

  /** `author_id = NULL` holds for no row. */
  lemma {:induction false} ByAuthorNone(s: seq<Post>)
    ensures ByAuthor(s, None) == []
    decreases |s|
  {
    if |s| > 0 {
      ByAuthorNone(s[1..]);
    }
  }
}
