/** Package-level pieces of the log handler shared by both rotating writers: the
    constants, the backup-name schemes (`name.N` for the size ladder, `name.YYYY-MM-DD`
    for the day rotation), the `dayRE` pattern and the process-wide default permission. */
module Handler {
  import opened Os
  import Compare

  /** `day`: seconds in a day, the unit of `SetInterval`. */
  const DAY: int := 86400

  /** `FILE_PERM`, 0644 in octal. */
  const FILE_PERM: nat := 420

  /** `SetBackupCount(31)` in the time-based writer's constructor. */
  const DEFAULT_BACKUP_COUNT: int := 31

  predicate IsDigit(c: char)
  {
    '0' <= c <= '9'
  }

  /** `\w` of Go's regexp syntax: ASCII letters, digits and underscore. */
  predicate IsWordChar(c: char)
  {
    IsDigit(c) || 'a' <= c <= 'z' || 'A' <= c <= 'Z' || c == '_'
  }

  /** `dayRE`, the pattern `^\d{4}-\d{2}-\d{2}(\.\w+)?$`, written out. */
  predicate DayRE(s: string)
  {
    && |s| >= 10
    && IsDigit(s[0]) && IsDigit(s[1]) && IsDigit(s[2]) && IsDigit(s[3])
    && s[4] == '-'
    && IsDigit(s[5]) && IsDigit(s[6])
    && s[7] == '-'
    && IsDigit(s[8]) && IsDigit(s[9])
    && (|s| == 10 || (|s| >= 12 && s[10] == '.' && forall i :: 11 <= i < |s| ==> IsWordChar(s[i])))
  }

  function DigitChar(d: int): (c: char)
    requires 0 <= d < 10
    ensures IsDigit(c)
  {
    (48 + d) as char
  }

  /** `%d` of a non-negative integer. */
  function Decimal(n: nat): (s: string)
    ensures |s| >= 1 && (n >= 10 ==> |s| >= 2)
    ensures forall i :: 0 <= i < |s| ==> IsDigit(s[i])
  {
    if n < 10 then [DigitChar(n)] else Decimal(n / 10) + [DigitChar(n % 10)]
  }

  lemma {:induction false} DecimalInjective(m: nat, n: nat)
    requires Decimal(m) == Decimal(n)
    ensures m == n
  {
    if m >= 10 && n >= 10 {
      var dm, dn := Decimal(m), Decimal(n);
      assert dm[..|dm| - 1] == Decimal(m / 10) && dn[..|dn| - 1] == Decimal(n / 10);
      DecimalInjective(m / 10, n / 10);
      assert DigitChar(m % 10) == DigitChar(n % 10);
    }
  }

  /** `fmt.Sprintf("%s.%d", filename, i)`: the i-th numbered backup of the size ladder. */
  function LadderName(filename: string, i: nat): string
  {
    filename + "." + Decimal(i)
  }

  /** Shape of every numbered backup name; used to say that the size rotation
      changes nothing but the active file and its numbered backups. */
  predicate IsRungOf(filename: string, p: string)
  {
    |p| > |filename| + 1 && p[..|filename| + 1] == filename + "." &&
    forall i :: |filename| + 1 <= i < |p| ==> IsDigit(p[i])
  }

  lemma LadderNameIsRung(filename: string, i: nat)
    ensures IsRungOf(filename, LadderName(filename, i))
    ensures LadderName(filename, i) != filename
  {
    var p := LadderName(filename, i);
    assert p[..|filename| + 1] == filename + ".";
    assert forall j :: |filename| + 1 <= j < |p| ==> p[j] == Decimal(i)[j - |filename| - 1];
  }

  lemma LadderNameInjective(filename: string, i: nat, j: nat)
    ensures LadderName(filename, i) == LadderName(filename, j) <==> i == j
  {
    if LadderName(filename, i) == LadderName(filename, j) {
      var k := |filename| + 1;
      assert LadderName(filename, i)[k..] == Decimal(i);
      assert LadderName(filename, j)[k..] == Decimal(j);
      DecimalInjective(i, j);
    }
  }

  function Pow10(w: nat): (p: nat)
    ensures p >= 1
  {
    if w == 0 then 1 else 10 * Pow10(w - 1)
  }

  /** `n` in decimal, zero-padded to `w` digits. */
  function Pad(n: nat, w: nat): (s: string)
    requires n < Pow10(w)
    ensures |s| == w
    ensures forall i :: 0 <= i < |s| ==> IsDigit(s[i])
  {
    if w == 0 then "" else Pad(n / 10, w - 1) + [DigitChar(n % 10)]
  }

  /** Zero-padding keeps numeric order as lexicographic order. */
  lemma {:induction false} PadOrder(m: nat, n: nat, w: nat)
    requires m < Pow10(w) && n < Pow10(w) && m < n
    ensures Compare.StrCompare(Pad(m, w), Pad(n, w)) < 0
  {
    var hm, hn := Pad(m / 10, w - 1), Pad(n / 10, w - 1);
    var lm, ln := [DigitChar(m % 10)], [DigitChar(n % 10)];
    Compare.StrCompareConcat(hm, lm, hn, ln);
    if m / 10 < n / 10 {
      PadOrder(m / 10, n / 10, w - 1);
    } else {
      assert m / 10 == n / 10 && m % 10 < n % 10;
    }
  }

  datatype Date = Date(year: int, month: int, day: int)

  /** A calendar date Go's `2006-01-02` layout prints in fixed width. */
  predicate ValidDate(d: Date)
  {
    0 <= d.year <= 9999 && 1 <= d.month <= 12 && 1 <= d.day <= 31
  }

  type CivilDate = d: Date | ValidDate(d) witness Date(1970, 1, 1)

  predicate DateBefore(d1: Date, d2: Date)
  {
    || d1.year < d2.year
    || (d1.year == d2.year && d1.month < d2.month)
    || (d1.year == d2.year && d1.month == d2.month && d1.day < d2.day)
  }

  /** `Format(DAY_FMT)` of a local date. */
  function FormatDay(d: CivilDate): string
  {
    Pad(d.year, 4) + "-" + Pad(d.month, 2) + "-" + Pad(d.day, 2)
  }

  /** The `2006-01-02` form of a day is ten characters long and matches `dayRE`. */
  lemma FormatDayShape(d: CivilDate)
    ensures |FormatDay(d)| == 10 && DayRE(FormatDay(d))
  {
    var s := FormatDay(d);
    assert s[..4] == Pad(d.year, 4) && s[5..7] == Pad(d.month, 2) && s[8..] == Pad(d.day, 2);
  }

  /** The value of a string of decimal digits. */
  function DigitsValue(s: string): (n: nat)
    requires forall i :: 0 <= i < |s| ==> IsDigit(s[i])
    ensures n < Pow10(|s|)
  {
    if |s| == 0 then 0
    else
      var k := |s| - 1;
      assert IsDigit(s[k]) && Pow10(|s|) == 10 * Pow10(k);
      10 * DigitsValue(s[..k]) + (s[k] as int - 48)
  }

  /** Zero-padding to `w` digits and reading the digits back are inverse. */
  lemma {:induction false} DigitsValuePad(n: nat, w: nat)
    requires n < Pow10(w)
    ensures DigitsValue(Pad(n, w)) == n
  {
    if w > 0 {
      var s := Pad(n, w);
      assert s[..w - 1] == Pad(n / 10, w - 1);
      DigitsValuePad(n / 10, w - 1);
    }
  }

  lemma {:induction false} PadDigitsValue(s: string)
    requires forall i :: 0 <= i < |s| ==> IsDigit(s[i])
    ensures Pad(DigitsValue(s), |s|) == s
  {
    if |s| > 0 {
      var t := s[..|s| - 1];
      var n := DigitsValue(s);
      assert n / 10 == DigitsValue(t) && n % 10 == s[|s| - 1] as int - 48;
      PadDigitsValue(t);
      assert s == t + [s[|s| - 1]];
    }
  }

  /** The year, month and day fields of a string `dayRE` accepts. */
  function ParseDay(s: string): Date
    requires DayRE(s)
  {
    Date(DigitsValue(s[..4]), DigitsValue(s[5..7]), DigitsValue(s[8..10]))
  }

  /** Reading a formatted day back gives the day. */
  lemma FormatDayParse(d: CivilDate)
    ensures DayRE(FormatDay(d)) && ParseDay(FormatDay(d)) == d
  {
    var s := FormatDay(d);
    FormatDayShape(d);
    assert s[..4] == Pad(d.year, 4) && s[5..7] == Pad(d.month, 2) && s[8..10] == Pad(d.day, 2);
    DigitsValuePad(d.year, 4);
    DigitsValuePad(d.month, 2);
    DigitsValuePad(d.day, 2);
  }

  /** Conversely, every string `dayRE` accepts begins with the zero-padded fields it
      reads back to, which is the formatted day when they form a calendar date. */
  lemma DayREReadsDay(s: string)
    requires DayRE(s)
    ensures var d := ParseDay(s);
      s[..10] == Pad(d.year, 4) + "-" + Pad(d.month, 2) + "-" + Pad(d.day, 2)
    ensures ValidDate(ParseDay(s)) ==> s[..10] == FormatDay(ParseDay(s))
  {
    PadDigitsValue(s[..4]);
    PadDigitsValue(s[5..7]);
    PadDigitsValue(s[8..10]);
    assert s[..10] == s[..4] + "-" + s[5..7] + "-" + s[8..10];
  }

  /** Lexicographic order of the formatted days is chronological order. */
  lemma FormatDayOrder(d1: CivilDate, d2: CivilDate)
    ensures DateBefore(d1, d2) <==> Compare.StrCompare(FormatDay(d1), FormatDay(d2)) < 0
  {
    if DateBefore(d1, d2) {
      FormatDayBefore(d1, d2);
    } else if DateBefore(d2, d1) {
      FormatDayBefore(d2, d1);
      Compare.StrCompareAntisymmetric(FormatDay(d2), FormatDay(d1));
    } else {
      assert d1 == d2;
    }
  }

  lemma FormatDayBefore(d1: CivilDate, d2: CivilDate)
    requires DateBefore(d1, d2)
    ensures Compare.StrCompare(FormatDay(d1), FormatDay(d2)) < 0
  {
    var y1, y2 := Pad(d1.year, 4), Pad(d2.year, 4);
    var m1, m2 := Pad(d1.month, 2), Pad(d2.month, 2);
    var a1, a2 := Pad(d1.day, 2), Pad(d2.day, 2);
    FormatDaySplit(d1);
    FormatDaySplit(d2);
    Compare.StrCompareConcat(y1, "-" + (m1 + ("-" + a1)), y2, "-" + (m2 + ("-" + a2)));
    DashFieldsCompare(m1, a1, m2, a2);
    if d1.year < d2.year {
      PadOrder(d1.year, d2.year, 4);
    } else if d1.month < d2.month {
      PadOrder(d1.month, d2.month, 2);
    } else {
      PadOrder(d1.day, d2.day, 2);
    }
  }

  lemma FormatDaySplit(d: CivilDate)
    ensures FormatDay(d) == Pad(d.year, 4) + ("-" + (Pad(d.month, 2) + ("-" + Pad(d.day, 2))))
  {
  }

  /** `-MM-DD` tails compare by month, then by day. */
  lemma DashFieldsCompare(m1: string, a1: string, m2: string, a2: string)
    requires |m1| == |m2|
    ensures Compare.StrCompare("-" + (m1 + ("-" + a1)), "-" + (m2 + ("-" + a2))) ==
      if m1 == m2 then Compare.StrCompare(a1, a2) else Compare.StrCompare(m1, m2)
  {
    Compare.StrCompareConcat("-", m1 + ("-" + a1), "-", m2 + ("-" + a2));
    Compare.StrCompareConcat(m1, "-" + a1, m2, "-" + a2);
    Compare.StrCompareConcat("-", a1, "-", a2);
  }

  /** The filter of `getFilesToDelete` (the name is longer than `baseName + "."`,
      starts with it, and the rest matches `dayRE`). */
  predicate IsBackupEntry(baseName: string, fileName: string)
  {
    var prefix := baseName + ".";
    |fileName| > |prefix| && fileName[..|prefix|] == prefix && DayRE(fileName[|prefix|..])
  }

  /** The day backup a time-based rotation produces, with or without an extra
      `.ext` such as a compressor adds, is an entry the pruning recognises. */
  lemma DayBackupIsEntry(baseName: string, d: CivilDate, ext: string)
    requires forall i :: 0 <= i < |ext| ==> IsWordChar(ext[i])
    ensures IsBackupEntry(baseName, baseName + "." + FormatDay(d))
    ensures |ext| > 0 ==> IsBackupEntry(baseName, baseName + "." + FormatDay(d) + "." + ext)
  {
    var prefix := baseName + ".";
    var s := FormatDay(d);
    FormatDayShape(d);
    assert (prefix + s)[..|prefix|] == prefix && (prefix + s)[|prefix|..] == s;
    if |ext| > 0 {
      var t := s + "." + ext;
      assert prefix + s + "." + ext == prefix + t;
      assert (prefix + t)[..|prefix|] == prefix && (prefix + t)[|prefix|..] == t;
      assert forall i :: 11 <= i < |t| ==> t[i] == ext[i - 11];
    }
  }

  /** The package variable `filePerm` and `ResetDefaultFilePerm`. Neither writer
      reads it: both open their files with the constant FILE_PERM. */
  class PackageVars {
    var filePerm: nat

    constructor ()
      ensures filePerm == FILE_PERM
    {
      filePerm := FILE_PERM;
    }

    /** `os.FileMode(perm)` keeps the low 32 bits of the two's-complement value. */
    method ResetDefaultFilePerm(perm: int)
      modifies this
      ensures filePerm == perm % 0x1_0000_0000
    {
      filePerm := perm % 0x1_0000_0000;
    }
  }
}
