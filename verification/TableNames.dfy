/** File names of tables: the number, zero-padded to four digits, and their order. */
module TableNames {
  import opened Bytes

  function Digit(d: nat): byte
    requires d < 10
  {
    (48 + d) as byte
  }

  /** A number in decimal, as `operator<<` prints it. */
  function Decimal(n: nat): (b: Bytes)
    ensures |b| > 0
  {
    if n < 10 then [Digit(n)] else Decimal(n / 10) + [Digit(n % 10)]
  }

  /** `setw(4) << setfill('0')`: at least four characters, never fewer digits than the number has. */
  function Padded(n: nat): Bytes {
    var d := Decimal(n);
    if |d| < 4 then seq(4 - |d|, _ => Digit(0)) + d else d
  }

  function Name(n: nat): Bytes {
    Ascii("sstable_") + Padded(n) + Ascii(".sst")
  }

  function Path(dir: Bytes, n: nat): Bytes {
    dir + Ascii("/") + Name(n)
  }

  // ---- Different tables have different names ----

  function Value(b: Bytes): int {
    if b == [] then 0 else 10 * Value(b[..|b| - 1]) + (b[|b| - 1] as int - 48)
  }

  lemma {:induction false} ValueOfDecimal(n: nat)
    ensures Value(Decimal(n)) == n
  {
    if n >= 10 {
      ValueOfDecimal(n / 10);
      assert Decimal(n)[..|Decimal(n)| - 1] == Decimal(n / 10);
    }
  }

  lemma {:induction false} ValueOfPadded(zeros: nat, d: Bytes)
    requires d != []
    ensures Value(seq(zeros, _ => Digit(0)) + d) == Value(d)
    decreases |d|
  {
    var z := seq(zeros, _ => Digit(0));
    assert (z + d)[..|z + d| - 1] == z + d[..|d| - 1];
    if |d| == 1 {
      assert z + d[..0] == z;
      ValueOfZeros(zeros);
    } else {
      ValueOfPadded(zeros, d[..|d| - 1]);
    }
  }

  lemma {:induction false} ValueOfZeros(zeros: nat)
    ensures Value(seq(zeros, _ => Digit(0))) == 0
  {
    if zeros > 0 {
      ValueOfZeros(zeros - 1);
      assert seq(zeros, _ => Digit(0))[..zeros - 1] == seq(zeros - 1, _ => Digit(0));
    }
  }

  lemma {:induction false} PathInjective(dir: Bytes, m: nat, n: nat)
    requires Path(dir, m) == Path(dir, n)
    ensures m == n
  {
    PaddedValue(m);
    PaddedValue(n);
    hide Padded;
    var front, back := dir + Ascii("/") + Ascii("sstable_"), Ascii(".sst");
    assert Path(dir, m) == front + Padded(m) + back && Path(dir, n) == front + Padded(n) + back;
    Middle(front, Padded(m), back);
    Middle(front, Padded(n), back);
  }

  lemma {:induction false} Middle(front: Bytes, x: Bytes, back: Bytes)
    ensures (front + x + back)[|front|..|front + x + back| - |back|] == x
  {
  }

  lemma {:induction false} PaddedValue(n: nat)
    ensures Value(Padded(n)) == n
  {
    ValueOfDecimal(n);
    if |Decimal(n)| < 4 {
      ValueOfPadded(4 - |Decimal(n)|, Decimal(n));
    }
  }

  // ---- Lexicographic order of names is age order up to 9999 ----

  lemma {:induction false} FourDigits(n: nat)
    requires n < 10000
    ensures Padded(n) == [Digit(n / 1000), Digit(n / 100 % 10), Digit(n / 10 % 10), Digit(n % 10)]
  {
    if n >= 10 {
      assert Decimal(n) == Decimal(n / 10) + [Digit(n % 10)];
      if n >= 100 {
        assert n / 10 / 10 == n / 100;
        assert Decimal(n / 10) == Decimal(n / 100) + [Digit(n / 10 % 10)];
        if n >= 1000 {
          assert n / 100 / 10 == n / 1000;
          assert Decimal(n / 100) == Decimal(n / 1000) + [Digit(n / 100 % 10)];
        }
      }
    }
  }

  lemma {:induction false} LessByDigits(m: nat, n: nat)
    requires m < n < 10000
    ensures Less(Padded(m) + Ascii(".sst"), Padded(n) + Ascii(".sst"))
  {
    hide Padded, Less, Ascii;
    FourDigits(m);
    FourDigits(n);
    var i := DifferingDigit(m, n);
    var x, y := [m / 1000, m / 100 % 10, m / 10 % 10, m % 10], [n / 1000, n / 100 % 10, n / 10 % 10, n % 10];
    assert x[i] < y[i] && forall j :: 0 <= j < i ==> x[j] == y[j];
    assert forall j :: 0 <= j < 4 ==> Padded(m)[j] == Digit(x[j]) && Padded(n)[j] == Digit(y[j]);
    PaddedLess(Padded(m), Padded(n), Ascii(".sst"), i);
  }

  lemma {:induction false} PaddedLess(a: Bytes, b: Bytes, e: Bytes, i: nat)
    requires i < |a| == |b| && a[i] < b[i] && forall j :: 0 <= j < i ==> a[j] == b[j]
    ensures Less(a + e, b + e)
  {
    hide Less;
    assert (a + e)[..i] == (b + e)[..i];
    FirstDifference(a + e, b + e, i);
  }

  lemma {:induction false} FromDigits(n: nat)
    ensures n == 1000 * (n / 1000) + 100 * (n / 100 % 10) + 10 * (n / 10 % 10) + n % 10
  {
    assert n / 10 / 10 == n / 100 && n / 100 / 10 == n / 1000;
  }

  /** The leading digit in which two four-digit numbers differ. */
  lemma {:induction false} DifferingDigit(m: nat, n: nat) returns (i: nat)
    requires m < n < 10000
    ensures i < 4
    ensures var a, b := [m / 1000, m / 100 % 10, m / 10 % 10, m % 10], [n / 1000, n / 100 % 10, n / 10 % 10, n % 10];
            a[i] < b[i] && forall j :: 0 <= j < i ==> a[j] == b[j]
  {
    FromDigits(m);
    FromDigits(n);
    i := if m / 1000 != n / 1000 then 0
         else if m / 100 % 10 != n / 100 % 10 then 1
         else if m / 10 % 10 != n / 10 % 10 then 2 else 3;
  }

  lemma {:induction false} NamesInAgeOrder(dir: Bytes, m: nat, n: nat)
    requires m < n < 10000
    ensures Less(Path(dir, m), Path(dir, n))
  {
    hide Path, Padded, Less, Ascii;
    LessByDigits(m, n);
    PathParts(dir, m);
    PathParts(dir, n);
    SamePrefix(dir + Ascii("/") + Ascii("sstable_"), Padded(m) + Ascii(".sst"), Padded(n) + Ascii(".sst"));
  }

  lemma {:induction false} PathParts(dir: Bytes, n: nat)
    ensures Path(dir, n) == dir + Ascii("/") + Ascii("sstable_") + (Padded(n) + Ascii(".sst"))
  {
    hide Padded, Ascii;
  }

  /** The first number whose name has five digits sorts before one of four: the padding is too
      short by then. */
  lemma {:induction false} NameOrderBreaks(dir: Bytes)
    ensures Less(Path(dir, 10000), Path(dir, 9999))
  {
    hide Path, Padded, Less, Ascii;
    FourDigits(9999);
    FiveDigits();
    var e := Ascii(".sst");
    assert Digit(1) < Digit(9);
    FirstDifference(Padded(10000) + e, Padded(9999) + e, 0);
    PathParts(dir, 10000);
    PathParts(dir, 9999);
    SamePrefix(dir + Ascii("/") + Ascii("sstable_"), Padded(10000) + e, Padded(9999) + e);
  }

  lemma {:induction false} FiveDigits()
    ensures |Padded(10000)| == 5 && Padded(10000)[0] == Digit(1)
  {
    assert Decimal(10) == Decimal(1) + [Digit(0)];
    assert Decimal(100) == Decimal(10) + [Digit(0)];
    assert Decimal(1000) == Decimal(100) + [Digit(0)];
    assert Decimal(10000) == Decimal(1000) + [Digit(0)];
  }

  /** The path in bytes: "/sstable_", at least four digits that stand for the number, with no zero before
      a fifth, and ".sst". */
  lemma {:induction false} PathWritten(dir: Bytes, n: nat) returns (digits: Bytes)
    ensures
      Path(dir, n) == dir + [0x2F, 0x73, 0x73, 0x74, 0x61, 0x62, 0x6C, 0x65, 0x5F] + digits + [0x2E, 0x73, 0x73, 0x74]
    ensures |digits| >= 4 && forall i :: 0 <= i < |digits| ==> 0x30 <= digits[i] <= 0x39
    ensures Value(digits) == n && (|digits| > 4 ==> digits[0] != 0x30)
  {
    digits := Padded(n);
    PaddedShape(n);
    PaddedValue(n);
    AsciiNames();
    PathParts(dir, n);
    hide Path, Padded, Ascii, Value;
    var front: Bytes := [0x2F, 0x73, 0x73, 0x74, 0x61, 0x62, 0x6C, 0x65, 0x5F];
    assert dir + Ascii("/") + Ascii("sstable_") == dir + front;
    assert dir + front + (digits + Ascii(".sst")) == dir + front + digits + Ascii(".sst");
  }

  lemma {:induction false} AsciiNames()
    ensures Ascii("/") == [0x2F] && Ascii(".sst") == [0x2E, 0x73, 0x73, 0x74]
    ensures Ascii("sstable_") == [0x73, 0x73, 0x74, 0x61, 0x62, 0x6C, 0x65, 0x5F]
  {
  }

  lemma {:induction false} PaddedShape(n: nat)
    ensures |Padded(n)| >= 4 && forall i :: 0 <= i < |Padded(n)| ==> 0x30 <= Padded(n)[i] <= 0x39
    ensures |Padded(n)| > 4 ==> Padded(n)[0] != 0x30
  {
    DecimalShape(n);
    hide Decimal;
  }

  lemma {:induction false} DecimalShape(n: nat)
    ensures forall i :: 0 <= i < |Decimal(n)| ==> 0x30 <= Decimal(n)[i] <= 0x39
    ensures |Decimal(n)| > 1 ==> Decimal(n)[0] != 0x30
  {
    if n >= 10 {
      DecimalShape(n / 10);
      if n < 100 {
        assert Decimal(n / 10) == [Digit(n / 10)];
      } else {
        assert |Decimal(n / 10)| > 1;
      }
    }
  }

  // ---- Sorting ----

  /** In descending order, as `std::sort` with `std::greater` leaves them. */
  ghost predicate Descending(s: seq<Bytes>) {
    forall i, j :: 0 <= i < j < |s| ==> !Less(s[i], s[j])
  }

  function Insert(x: Bytes, s: seq<Bytes>): (r: seq<Bytes>)
    ensures multiset(r) == multiset(s) + multiset{x}
  {
    if s == [] then [x]
    else if Less(s[0], x) then
      assert s == [s[0]] + s[1..];
      [x] + s
    else
      assert s == [s[0]] + s[1..];
      [s[0]] + Insert(x, s[1..])
  }

  function SortDescending(s: seq<Bytes>): (r: seq<Bytes>)
    ensures multiset(r) == multiset(s)
  {
    if s == [] then [] else
      assert s == [s[0]] + s[1..];
      Insert(s[0], SortDescending(s[1..]))
  }

  lemma {:induction false} PutOnTop(x: Bytes, s: seq<Bytes>)
    requires Descending(s) && forall i :: 0 <= i < |s| ==> !Less(x, s[i])
    ensures Descending([x] + s)
  {
  }

  lemma {:induction false} BelowTop(x: Bytes, s: seq<Bytes>)
    requires Descending(s) && s != [] && Less(s[0], x)
    ensures forall i :: 0 <= i < |s| ==> !Less(x, s[i])
  {
    forall i | 0 <= i < |s|
      ensures !Less(x, s[i])
    {
      if Less(x, s[i]) {
        Transitive(s[0], x, s[i]);
        Trichotomy(s[0], s[0]);
      }
    }
  }

  lemma {:induction false} InsertDescending(x: Bytes, s: seq<Bytes>)
    requires Descending(s)
    ensures Descending(Insert(x, s))
    ensures forall i :: 0 <= i < |Insert(x, s)| ==> Insert(x, s)[i] == x || Insert(x, s)[i] in s
  {
    hide Less;
    if s == [] {
    } else if Less(s[0], x) {
      BelowTop(x, s);
      PutOnTop(x, s);
    } else {
      InsertDescending(x, s[1..]);
      PutOnTop(s[0], Insert(x, s[1..]));
    }
  }

  lemma {:induction false} SortIsDescending(s: seq<Bytes>)
    ensures Descending(SortDescending(s))
  {
    if s != [] {
      SortIsDescending(s[1..]);
      InsertDescending(s[0], SortDescending(s[1..]));
    }
  }

  lemma {:induction false} SameTop(a: seq<Bytes>, b: seq<Bytes>)
    requires Descending(a) && Descending(b) && multiset(a) == multiset(b) && a != []
    ensures b != [] && a[0] == b[0]
  {
    assert a[0] in multiset(a);
    assert a[0] in multiset(b);
    assert b[0] in multiset(b);
    assert b[0] in multiset(a);
    var i :| 0 <= i < |b| && b[i] == a[0];
    var j :| 0 <= j < |a| && a[j] == b[0];
    Trichotomy(a[0], b[0]);
  }

  lemma {:induction false} SameRest(a: seq<Bytes>, b: seq<Bytes>)
    requires multiset(a) == multiset(b) && a != [] && b != [] && a[0] == b[0]
    ensures multiset(a[1..]) == multiset(b[1..])
  {
    assert a == [a[0]] + a[1..] && b == [b[0]] + b[1..];
    assert multiset(a[1..]) == multiset(a) - multiset{a[0]};
  }

  lemma {:induction false} RestDescends(a: seq<Bytes>)
    requires Descending(a) && a != []
    ensures Descending(a[1..])
  {
    hide Less;
  }

  lemma {:induction false} SameNothing(b: seq<Bytes>)
    requires multiset(b) == multiset{}
    ensures b == []
  {
    assert |multiset(b)| == |b|;
  }

  /** There is only one way to put a collection of strings in descending order. */
  lemma {:induction false} DescendingUnique(a: seq<Bytes>, b: seq<Bytes>)
    requires Descending(a) && Descending(b) && multiset(a) == multiset(b)
    ensures a == b
    decreases |a|
  {
    hide Less, Descending;
    if a == [] {
      SameNothing(b);
    } else {
      SameTop(a, b);
      SameRest(a, b);
      RestDescends(a);
      RestDescends(b);
      DescendingUnique(a[1..], b[1..]);
      assert a == [a[0]] + a[1..] && b == [b[0]] + b[1..];
    }
  }
}
