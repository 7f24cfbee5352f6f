/** RFC 3339 timestamps as the C server writes them, and the Zig server's date fields. */
module Timestamp {
  import opened Buffers
  import opened CInts
  import opened Civil
  import opened Wrappers

  datatype Fields = Fields(date: Date, hour: int, minute: int, second: int)

  const SECONDS_PER_DAY: nat := 86400

  /** The date the C loops compute for a cast day count. */
  function LoopDate(days: int): (d: Date) {
    if days < 0 then Date(1970, 1, days + 1) else DateOf(days)
  }

  /** The six fields the C formatter prints. */
  function CFields(epoch: nat): (f: Fields) {
    Fields(LoopDate(ToInt32(epoch / 60 / 60 / 24)), epoch / 60 / 60 % 24, epoch / 60 % 60, epoch % 60)
  }

  /** The cast day count of a time before 1970. */
  function AnyDays(epoch: int): (days: int)
    requires epoch < 0
  {
    ToInt32(-(-epoch / 60 / 60 / 24))
  }

  /** The same for any `int64_t`: before 1970 C's truncation gives the mirror image of each count. */
  function AnyFields(epoch: int): (f: Fields) {
    if epoch >= 0 then CFields(epoch)
    else
      var n := -epoch;
      Fields(LoopDate(AnyDays(epoch)), -(n / 60 / 60 % 24), -(n / 60 % 60), -(n % 60))
  }

  /** C and Zig truncated division and remainder, which round toward zero. */
  function CDiv(n: int, k: int): (q: int)
    requires k > 0
  {
    if n >= 0 then n / k else -(-n / k)
  }

  function CMod(n: int, k: int): (r: int)
    requires k > 0
  {
    n - k * CDiv(n, k)
  }

  /** The whole seconds of a time in nanoseconds. */
  function ZigSeconds(ns: int): (secs: int) {
    CDiv(ns, 1_000_000_000)
  }

  /** The six fields the Zig formatter prints; its days are rounded down, before 1970 too. */
  function ZigFields(ns: int): (f: Fields) {
    ZigFieldsAt(ZigSeconds(ns))
  }

  function ZigFieldsAt(secs: int): (f: Fields) {
    var days := secs / SECONDS_PER_DAY;
    var daySecs := secs - days * SECONDS_PER_DAY;
    Fields(FromDaysClosedForm(days), daySecs / 3600, daySecs % 3600 / 60, daySecs % 60)
  }

  lemma SplitSeconds(epoch: nat)
    ensures epoch / 60 / 60 / 24 == epoch / SECONDS_PER_DAY
    ensures var r := epoch - epoch / SECONDS_PER_DAY * SECONDS_PER_DAY;
      r / 3600 == epoch / 60 / 60 % 24 && r % 3600 / 60 == epoch / 60 % 60 && r % 60 == epoch % 60
  {
    var days := epoch / SECONDS_PER_DAY;
    var r := epoch - days * SECONDS_PER_DAY;
    assert epoch / 60 == 1440 * days + r / 60;
    assert epoch / 60 / 60 == 24 * days + r / 60 / 60;
    assert r / 60 / 60 == r / 3600;
  }

  /** The C date of a cast day count is the calendar date of that count or no date at all. */
  lemma LoopDateIs(days: int, d: Date, zigDays: int)
    requires Denotes(d, zigDays)
    ensures LoopDate(days) == d <==> days >= 0 && days == zigDays
  {
    if days >= 0 {
      DatesAreOrdered(DateOf(days), d, days, zigDays);
    }
  }

  lemma AgreeSince1970(secs: nat)
    requires secs < INT64_LIMIT
    ensures CFields(secs) == ZigFieldsAt(secs) <==> secs / SECONDS_PER_DAY < INT_LIMIT
  {
    var days := secs / SECONDS_PER_DAY;
    SplitSeconds(secs);
    ClosedFormCorrect(days);
    LoopDateIs(ToInt32(days), FromDaysClosedForm(days), days);
  }

  lemma DifferBefore1970(secs: int)
    requires secs < 0
    ensures AnyFields(secs).date != ZigFieldsAt(secs).date
  {
    var days := secs / SECONDS_PER_DAY;
    ClosedFormCorrect(days);
    LoopDateIs(AnyDays(secs), FromDaysClosedForm(days), days);
  }

  /**
   The two servers print the same six fields for an instant exactly when it is not before 1970 and
   its day number fits the C `int`; otherwise C prints another date, or none.
   */
  lemma CAndZigAgree(ns: int)
    requires -INT64_LIMIT <= ZigSeconds(ns) < INT64_LIMIT
    ensures AnyFields(ZigSeconds(ns)) == ZigFields(ns)
            <==> 0 <= ZigSeconds(ns) && ZigSeconds(ns) / SECONDS_PER_DAY < INT_LIMIT
  {
    if ZigSeconds(ns) >= 0 {
      AgreeSince1970(ZigSeconds(ns));
    } else {
      DifferBefore1970(ZigSeconds(ns));
    }
  }

  /** The character `'0' + n`, stored in a byte. */
  function Digit(n: int): (c: char)
    ensures 0 <= n <= 9 ==> c as int == 48 + n
  {
    ((48 + n) % 256) as char
  }

  function Pad4(n: int): (s: string)
    ensures |s| == 4
  {
    [Digit(CDiv(n, 1000)), Digit(CMod(CDiv(n, 100), 10)), Digit(CMod(CDiv(n, 10), 10)), Digit(CMod(n, 10))]
  }

  function Pad2(n: int): (s: string)
    ensures |s| == 2
  {
    [Digit(CDiv(n, 10)), Digit(CMod(n, 10))]
  }

  function DateText(d: Date): (s: string)
    ensures |s| == 10
  {
    Pad4(d.year) + "-" + Pad2(d.month) + "-" + Pad2(d.day)
  }

  function TimeText(f: Fields): (s: string)
    ensures |s| == 8
  {
    Pad2(f.hour) + ":" + Pad2(f.minute) + ":" + Pad2(f.second)
  }

  /** The printed timestamp, `YYYY-MM-DDThh:mm:ssZ`. */
  function Text(f: Fields): (s: string)
    ensures |s| == 20
  {
    DateText(f.date) + "T" + TimeText(f) + "Z"
  }

  /** Truncation mirrors the quotient and remainder of the opposite number. */
  lemma Mirror(n: int, k: int)
    requires n >= 0 && k > 0
    ensures CDiv(-n, k) == -(n / k) && CMod(-n, k) == -(n % k)
    ensures CDiv(n, k) == n / k && CMod(n, k) == n % k
  {
    assert n == k * (n / k) + n % k;
    if n == 0 {
      assert 0 / k == 0 && 0 % k == 0;
    }
  }

  /** The field computation at the head of the C formatter. */
  method ComputeFields(epoch: int) returns (f: Fields)
    requires -INT64_LIMIT <= epoch < INT64_LIMIT
    ensures f == AnyFields(epoch)
  {
    ghost var n := if epoch >= 0 then epoch else -epoch;
    Mirror(n, 60);
    Mirror(n / 60, 60);
    Mirror(n / 60 / 60, 24);
    var t := epoch;
    var sec := CMod(t, 60);
    t := CDiv(t, 60);
    var min := CMod(t, 60);
    t := CDiv(t, 60);
    var hr := CMod(t, 24);
    t := CDiv(t, 24);
    var date := FromDaysByLoops(ToInt32(t));
    f := Fields(date, hr, min, sec);
  }

  method PutDate(buf: array<char>, d: Date) returns (next: nat)
    requires buf.Length >= 10
    modifies buf
    ensures next == 10 && buf[..10] == DateText(d)
    ensures forall k :: 10 <= k < buf.Length ==> buf[k] == old(buf[k])
  {
    next := Put(buf, 0, Pad4(d.year));
    next := Put(buf, next, "-");
    next := Put(buf, next, Pad2(d.month));
    next := Put(buf, next, "-");
    next := Put(buf, next, Pad2(d.day));
  }

  method PutTime(buf: array<char>, at: nat, f: Fields) returns (next: nat)
    requires buf.Length >= at + 8
    modifies buf
    ensures next == at + 8 && buf[..next] == old(buf[..at]) + TimeText(f)
    ensures forall k :: next <= k < buf.Length ==> buf[k] == old(buf[k])
  {
    next := Put(buf, at, Pad2(f.hour));
    next := Put(buf, next, ":");
    next := Put(buf, next, Pad2(f.minute));
    next := Put(buf, next, ":");
    next := Put(buf, next, Pad2(f.second));
  }

  /** The C formatter writing into its caller's buffer. */
  method Format(epoch: int, buf: array<char>) returns (n: nat)
    requires -INT64_LIMIT <= epoch < INT64_LIMIT && buf.Length >= 21
    modifies buf
    ensures n == 20 && buf[..20] == Text(AnyFields(epoch)) && buf[20] == '\0'
    ensures forall k :: 21 <= k < buf.Length ==> buf[k] == old(buf[k])
  {
    var f := ComputeFields(epoch);
    n := PutDate(buf, f.date);
    n := Put(buf, n, "T");
    n := PutTime(buf, n, f);
    n := Put(buf, n, "Z");
    buf[n] := '\0';
  }

  /** The first second after year 9999, the last year four digits can print. */
  const END_OF_YEAR_9999: nat := 253402300800

  function Value(c: char): (n: int) {
    c as int - 48
  }

  predicate Numeral(s: string) {
    forall c :: c in s ==> '0' <= c <= '9'
  }

  /** The shape `dddd-dd-ddTdd:dd:ddZ` of section 5.6 of RFC 3339, without a fraction. */
  predicate IsStamp(s: string) {
    && |s| == 20 && s[4] == '-' && s[7] == '-' && s[10] == 'T' && s[13] == ':' && s[16] == ':' && s[19] == 'Z'
    && Numeral(s[0..4]) && Numeral(s[5..7]) && Numeral(s[8..10])
    && Numeral(s[11..13]) && Numeral(s[14..16]) && Numeral(s[17..19])
  }

  /** Reads the six numbers back, if digits and separators stand where they belong. */
  function ReadStamp(s: string): (r: Option<Fields>) {
    if IsStamp(s) then Some(FieldsOf(s[0..4], s[5..7], s[8..10], s[11..13], s[14..16], s[17..19])) else None
  }

  function Two(s: string): (n: int)
    requires |s| == 2
  {
    10 * Value(s[0]) + Value(s[1])
  }

  function FieldsOf(y: string, m: string, d: string, h: string, n: string, x: string): (f: Fields)
    requires |y| == 4 && |m| == |d| == |h| == |n| == |x| == 2
  {
    Fields(Date(1000 * Value(y[0]) + 100 * Value(y[1]) + 10 * Value(y[2]) + Value(y[3]), Two(m), Two(d)), Two(h), Two(n), Two(x))
  }

  /** The instant six fields name, by the calendar. */
  function Instant(f: Fields): (t: int)
    requires 1 <= f.date.month <= 12
  {
    (YearStart(f.date.year) + MonthStart(f.date.year, f.date.month - 1) + f.date.day - 1) * SECONDS_PER_DAY
    + f.hour * 3600 + f.minute * 60 + f.second
  }

  /** Field values as section 5.7 of RFC 3339 restricts them. */
  predicate ValidFields(f: Fields) {
    && 1970 <= f.date.year <= 9999 && 1 <= f.date.month <= 12
    && 1 <= f.date.day <= MonthLen(f.date.year, f.date.month - 1)
    && 0 <= f.hour < 24 && 0 <= f.minute < 60 && 0 <= f.second < 60
  }

  lemma Pad4RoundTrip(n: int)
    requires 0 <= n <= 9999
    ensures Numeral(Pad4(n))
    ensures 1000 * Value(Pad4(n)[0]) + 100 * Value(Pad4(n)[1]) + 10 * Value(Pad4(n)[2]) + Value(Pad4(n)[3]) == n
  {
    assert CMod(n, 10) == n - 10 * (n / 10);
    assert CMod(n / 10, 10) == n / 10 - 10 * (n / 100);
    assert CMod(n / 100, 10) == n / 100 - 10 * (n / 1000);
  }

  lemma Pad2RoundTrip(n: int)
    requires 0 <= n <= 99
    ensures Numeral(Pad2(n)) && 10 * Value(Pad2(n)[0]) + Value(Pad2(n)[1]) == n
  {
  }

  lemma TextColumns(f: Fields)
    ensures var s := Text(f);
      && s[0..4] == Pad4(f.date.year) && s[5..7] == Pad2(f.date.month) && s[8..10] == Pad2(f.date.day)
      && s[11..13] == Pad2(f.hour) && s[14..16] == Pad2(f.minute) && s[17..19] == Pad2(f.second)
  {
    assert Text(f)[..10] == DateText(f.date) && Text(f)[11..19] == TimeText(f);
  }

  lemma Framed(d: string, c: string)
    requires |d| == 10 && |c| == 8
    ensures var s := d + "T" + c + "Z";
      s[4] == d[4] && s[7] == d[7] && s[10] == 'T' && s[13] == c[2] && s[16] == c[5] && s[19] == 'Z'
  {
  }

  lemma TextSeparators(f: Fields)
    ensures var s := Text(f);
      s[4] == '-' && s[7] == '-' && s[10] == 'T' && s[13] == ':' && s[16] == ':' && s[19] == 'Z'
  {
    var d, c := DateText(f.date), TimeText(f);
    assert d[4] == d[7] == '-' && c[2] == c[5] == ':';
    Framed(d, c);
  }

  lemma NumeralsRead(f: Fields)
    requires ValidFields(f)
    ensures Numeral(Pad4(f.date.year)) && Numeral(Pad2(f.date.month)) && Numeral(Pad2(f.date.day))
    ensures Numeral(Pad2(f.hour)) && Numeral(Pad2(f.minute)) && Numeral(Pad2(f.second))
    ensures FieldsOf(Pad4(f.date.year), Pad2(f.date.month), Pad2(f.date.day), Pad2(f.hour), Pad2(f.minute), Pad2(f.second)) == f
  {
    Pad4RoundTrip(f.date.year);
    Pad2RoundTrip(f.date.month);
    Pad2RoundTrip(f.date.day);
    Pad2RoundTrip(f.hour);
    Pad2RoundTrip(f.minute);
    Pad2RoundTrip(f.second);
  }

  lemma TextRoundTrip(f: Fields)
    requires ValidFields(f)
    ensures ReadStamp(Text(f)) == Some(f)
  {
    NumeralsRead(f);
    TextColumns(f);
    TextSeparators(f);
  }

  /** Before 1970 the C fields are the mirrored counts of whole days, hours, minutes and seconds. */
  lemma FieldsBefore1970(epoch: int)
    requires epoch < 0
    ensures var f, days := AnyFields(epoch), CDiv(epoch, SECONDS_PER_DAY);
      && -24 < f.hour <= 0 && -60 < f.minute <= 0 && -60 < f.second <= 0
      && days * SECONDS_PER_DAY + f.hour * 3600 + f.minute * 60 + f.second == epoch
      && (-INT_LIMIT <= days < 0 ==> f.date == Date(1970, 1, days + 1))
  {
    SplitSeconds(-epoch);
  }

  /** The Zig fields are those of the calendar for every time, before 1970 too. */
  lemma ZigFieldsAreRight(secs: int)
    ensures var f := ZigFieldsAt(secs);
      && 0 <= f.hour < 24 && 0 <= f.minute < 60 && 0 <= f.second < 60
      && Denotes(f.date, secs / SECONDS_PER_DAY) && Instant(f) == secs
  {
    var days := secs / SECONDS_PER_DAY;
    ClosedFormCorrect(days);
    DaySeconds(secs - days * SECONDS_PER_DAY);
    assert Instant(ZigFieldsAt(secs)) == days * SECONDS_PER_DAY + (secs - days * SECONDS_PER_DAY);
  }

  lemma DaySeconds(r: nat)
    requires r < SECONDS_PER_DAY
    ensures 0 <= r / 3600 < 24 && 0 <= r % 3600 / 60 < 60 && 0 <= r % 60 < 60
    ensures r / 3600 * 3600 + r % 3600 / 60 * 60 + r % 60 == r
  {
    assert r % 3600 % 60 == r % 60;
  }

  lemma FieldsAreValid(epoch: nat)
    requires epoch < END_OF_YEAR_9999
    ensures ValidFields(CFields(epoch))
    ensures Denotes(CFields(epoch).date, epoch / SECONDS_PER_DAY)
    ensures Instant(CFields(epoch)) == epoch
  {
    SplitSeconds(epoch);
    var days := epoch / SECONDS_PER_DAY;
    var d := DateOf(days);
    assert Denotes(Date(10000, 1, 1), 2932897);
    DatesAreOrdered(d, Date(10000, 1, 1), days, 2932897);
    assert Denotes(Date(1970, 1, 1), 0);
    DatesAreOrdered(d, Date(1970, 1, 1), days, 0);
  }

  /** Valid fields name an instant in the range that four-digit years can print. */
  lemma ValidInstants(f: Fields)
    requires ValidFields(f)
    ensures 0 <= Instant(f) < END_OF_YEAR_9999
  {
    var days := YearStart(f.date.year) + MonthStart(f.date.year, f.date.month - 1) + f.date.day - 1;
    assert Denotes(Date(10000, 1, 1), 2932897) && Denotes(Date(1970, 1, 1), 0);
    DatesAreOrdered(f.date, Date(10000, 1, 1), days, 2932897);
    DatesAreOrdered(f.date, Date(1970, 1, 1), days, 0);
    assert Instant(f) == days * SECONDS_PER_DAY + (f.hour * 3600 + f.minute * 60 + f.second);
  }

  /**
   Of all 64-bit times, exactly the seconds from 1970 to the end of 9999 are printed as a timestamp
   of RFC 3339 with valid fields that read back to the same instant.
   */
  lemma TimestampRoundTrip(epoch: int)
    ensures var r := ReadStamp(Text(AnyFields(epoch)));
      r.Some? && ValidFields(r.value) && Instant(r.value) == epoch <==> 0 <= epoch < END_OF_YEAR_9999
  {
    var r := ReadStamp(Text(AnyFields(epoch)));
    if 0 <= epoch < END_OF_YEAR_9999 {
      FieldsAreValid(epoch);
      TextRoundTrip(CFields(epoch));
    } else if r.Some? && ValidFields(r.value) {
      ValidInstants(r.value);
    }
  }

  /** Plain character-by-character string order. */
  predicate LexLess(a: string, b: string) {
    b != [] && (a == [] || a[0] < b[0] || (a[0] == b[0] && LexLess(a[1..], b[1..])))
  }

  /** Equal-length prefixes are compared first. */
  lemma {:induction false} LexAppend(a: string, b: string, c: string, d: string)
    requires |a| == |b|
    ensures LexLess(a + c, b + d) <==> LexLess(a, b) || (a == b && LexLess(c, d))
  {
    if a == [] {
      assert a + c == c && b + d == d;
    } else {
      LexAppend(a[1..], b[1..], c, d);
      assert (a + c)[1..] == a[1..] + c && (b + d)[1..] == b[1..] + d;
      assert a == b <==> a[0] == b[0] && a[1..] == b[1..];
    }
  }

  lemma LexPad2(m: int, n: int)
    requires 0 <= m <= 99 && 0 <= n <= 99
    ensures LexLess(Pad2(m), Pad2(n)) <==> m < n
    ensures Pad2(m) == Pad2(n) <==> m == n
  {
    var a, b := Pad2(m), Pad2(n);
    assert a[1..] == [a[1]] && b[1..] == [b[1]];
    assert LexLess(a[1..], b[1..]) <==> a[1] < b[1] by {
      assert a[1..][1..] == [] == b[1..][1..];
    }
    Pad2RoundTrip(m);
    Pad2RoundTrip(n);
  }

  lemma LexPad4(m: int, n: int)
    requires 0 <= m <= 9999 && 0 <= n <= 9999
    ensures LexLess(Pad4(m), Pad4(n)) <==> m < n
    ensures Pad4(m) == Pad4(n) <==> m == n
  {
    assert Pad4(m) == Pad2(m / 100) + Pad2(m % 100) by {
      Pad4Halves(m);
    }
    assert Pad4(n) == Pad2(n / 100) + Pad2(n % 100) by {
      Pad4Halves(n);
    }
    LexAppend(Pad2(m / 100), Pad2(n / 100), Pad2(m % 100), Pad2(n % 100));
    LexPad2(m / 100, n / 100);
    LexPad2(m % 100, n % 100);
    Pad4RoundTrip(m);
    Pad4RoundTrip(n);
  }

  lemma Pad4Halves(n: int)
    requires 0 <= n <= 9999
    ensures Pad4(n) == Pad2(n / 100) + Pad2(n % 100)
  {
    assert n / 100 / 10 == n / 1000;
    assert n / 10 == 10 * (n / 100) + n % 100 / 10;
    assert CMod(n / 10, 10) == n % 100 / 10;
    assert CMod(n, 10) == n % 10 == CMod(n % 100, 10);
  }

  lemma LexSeparated(a: string, b: string, sep: string, c: string, d: string)
    requires |a| == |b|
    ensures LexLess(a + sep + c, b + sep + d) <==> LexLess(a, b) || (a == b && LexLess(c, d))
  {
    LexAppend(a + sep, b + sep, c, d);
    LexAppend(a, b, sep, sep);
    LexIrreflexive(sep);
    assert a + sep == b + sep ==> a == b by {
      assert (a + sep)[..|a|] == a && (b + sep)[..|b|] == b;
    }
  }

  lemma {:induction false} LexIrreflexive(a: string)
    ensures !LexLess(a, a)
  {
    if a != [] {
      LexIrreflexive(a[1..]);
    }
  }

  predicate FieldsBefore(f: Fields, g: Fields) {
    Before(f.date, g.date) || (f.date == g.date && (f.hour < g.hour
      || (f.hour == g.hour && (f.minute < g.minute || (f.minute == g.minute && f.second < g.second)))))
  }

  lemma DateTextOrder(a: Date, b: Date)
    requires 0 <= a.year <= 9999 && 0 <= b.year <= 9999 && 1 <= a.month <= 12 && 1 <= b.month <= 12
    requires 1 <= a.day <= 31 && 1 <= b.day <= 31
    ensures LexLess(DateText(a), DateText(b)) <==> Before(a, b)
    ensures DateText(a) == DateText(b) <==> a == b
  {
    LexPad4(a.year, b.year);
    LexPad2(a.month, b.month);
    LexPad2(a.day, b.day);
    var p, q := Pad4(a.year) + "-" + Pad2(a.month), Pad4(b.year) + "-" + Pad2(b.month);
    LexSeparated(Pad4(a.year), Pad4(b.year), "-", Pad2(a.month), Pad2(b.month));
    LexSeparated(p, q, "-", Pad2(a.day), Pad2(b.day));
    PairInjective(Pad4(a.year), Pad4(b.year), "-", Pad2(a.month), Pad2(b.month));
    PairInjective(p, q, "-", Pad2(a.day), Pad2(b.day));
  }

  lemma PairInjective(a: string, b: string, sep: string, c: string, d: string)
    requires |a| == |b|
    ensures a + sep + c == b + sep + d <==> a == b && c == d
  {
    var n := |a| + |sep|;
    assert (a + sep + c)[..|a|] == a && (b + sep + d)[..|a|] == b;
    assert (a + sep + c)[n..] == c && (b + sep + d)[n..] == d;
  }

  lemma TimeTextOrder(f: Fields, g: Fields)
    requires 0 <= f.hour < 24 && 0 <= f.minute < 60 && 0 <= f.second < 60
    requires 0 <= g.hour < 24 && 0 <= g.minute < 60 && 0 <= g.second < 60
    ensures LexLess(TimeText(f), TimeText(g)) <==>
      f.hour < g.hour || (f.hour == g.hour && (f.minute < g.minute || (f.minute == g.minute && f.second < g.second)))
  {
    LexPad2(f.hour, g.hour);
    LexPad2(f.minute, g.minute);
    LexPad2(f.second, g.second);
    var p, q := Pad2(f.hour) + ":" + Pad2(f.minute), Pad2(g.hour) + ":" + Pad2(g.minute);
    LexSeparated(Pad2(f.hour), Pad2(g.hour), ":", Pad2(f.minute), Pad2(g.minute));
    LexSeparated(p, q, ":", Pad2(f.second), Pad2(g.second));
    PairInjective(Pad2(f.hour), Pad2(g.hour), ":", Pad2(f.minute), Pad2(g.minute));
  }

  lemma FieldsOrder(f: Fields, g: Fields, i: int, j: int)
    requires ValidFields(f) && ValidFields(g)
    requires Denotes(f.date, i) && Denotes(g.date, j)
    ensures FieldsBefore(f, g) <==> Instant(f) < Instant(g)
  {
    DatesAreOrdered(f.date, g.date, i, j);
    assert Instant(f) == i * SECONDS_PER_DAY + (f.hour * 3600 + f.minute * 60 + f.second);
    assert Instant(g) == j * SECONDS_PER_DAY + (g.hour * 3600 + g.minute * 60 + g.second);
  }

  lemma TextOrder(f: Fields, g: Fields)
    requires ValidFields(f) && ValidFields(g)
    ensures LexLess(Text(f), Text(g)) <==> FieldsBefore(f, g)
  {
    DateTextOrder(f.date, g.date);
    TimeTextOrder(f, g);
    LexSeparated(DateText(f.date), DateText(g.date), "T", TimeText(f), TimeText(g));
    LexAppend(DateText(f.date) + "T" + TimeText(f), DateText(g.date) + "T" + TimeText(g), "Z", "Z");
    LexIrreflexive("Z");
  }

  /** Comparing two timestamps as strings compares the instants (section 5.1 of RFC 3339). */
  lemma StringOrderIsTimeOrder(s: nat, t: nat)
    requires s < END_OF_YEAR_9999 && t < END_OF_YEAR_9999
    ensures LexLess(Text(CFields(s)), Text(CFields(t))) <==> s < t
  {
    FieldsAreValid(s);
    FieldsAreValid(t);
    TextOrder(CFields(s), CFields(t));
    FieldsOrder(CFields(s), CFields(t), s / SECONDS_PER_DAY, t / SECONDS_PER_DAY);
  }
}
