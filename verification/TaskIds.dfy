/**
 Task ids of internal/redfish/handler_update.go: "JID_%012d" of a counter. Sorting the
 ids as strings is how GET on the collection lists them in creation order.
 */
module TaskIds {

  const WIDTH := 12

  function Digit(d: nat): char
    requires d < 10
  {
    '0' + d as char
  }

  function DigitValue(c: char): nat {
    if '0' <= c <= '9' then (c - '0') as nat else 0
  }

  /** strconv.Itoa of a natural number */
  function Decimal(n: nat): (s: string)
    ensures |s| > 0
  {
    if n < 10 then [Digit(n)] else Decimal(n / 10) + [Digit(n % 10)]
  }

  function Zeros(n: nat): (s: string)
    ensures |s| == n
  {
    if n == 0 then "" else Zeros(n - 1) + "0"
  }

  /** %0wd */
  function Padded(n: nat, w: nat): string {
    var s := Decimal(n);
    if |s| >= w then s else Zeros(w - |s|) + s
  }

  function TaskId(n: nat): string {
    "JID_" + Padded(n, WIDTH)
  }

  // ----- reading an id back -----

  function Value(s: string): nat {
    if s == [] then 0 else 10 * Value(s[..|s| - 1]) + DigitValue(s[|s| - 1])
  }

  lemma {:induction false} ValueOfDecimal(n: nat)
    ensures Value(Decimal(n)) == n
  {
    if n < 10 {
      assert Decimal(n)[..0] == [];
    } else {
      ValueOfDecimal(n / 10);
      var s := Decimal(n / 10) + [Digit(n % 10)];
      assert s[..|s| - 1] == Decimal(n / 10);
    }
  }

  lemma {:induction false} ValueOfZeros(k: nat, s: string)
    ensures Value(Zeros(k) + s) == Value(s)
    decreases |s|, k
  {
    if s != [] {
      assert (Zeros(k) + s)[..k + |s| - 1] == Zeros(k) + s[..|s| - 1];
      ValueOfZeros(k, s[..|s| - 1]);
    } else if k > 0 {
      assert Zeros(k) + [] == Zeros(k);
      assert Zeros(k)[..k - 1] == Zeros(k - 1);
      ValueOfZeros(k - 1, s);
      assert Zeros(k - 1) + [] == Zeros(k - 1);
    }
  }

  /** Ids of different counters differ, whatever their size. */
  lemma TaskIdInjective(a: nat, b: nat)
    requires TaskId(a) == TaskId(b)
    ensures a == b
  {
    forall n: nat ensures Value(TaskId(n)[4..]) == n {
      assert TaskId(n)[4..] == Padded(n, WIDTH);
      ValueOfDecimal(n);
      if |Decimal(n)| < WIDTH {
        ValueOfZeros(WIDTH - |Decimal(n)|, Decimal(n));
      }
    }
  }

  // ----- string order -----

  /** Go's order on strings: the first difference decides, a proper prefix comes first. */
  predicate Less(a: string, b: string) {
    if b == [] then false
    else if a == [] then true
    else if a[0] != b[0] then a[0] < b[0]
    else Less(a[1..], b[1..])
  }

  /** Lexicographic: at some place the strings agree before, and there the first ends or has the
      smaller character. */
  lemma {:induction false} LessIff(a: string, b: string)
    ensures Less(a, b) <==> exists i: nat :: LessAt(a, b, i)
    decreases |a|
  {
    if a != [] && b != [] && a[0] == b[0] {
      LessIff(a[1..], b[1..]);
      if i: nat :| LessAt(a[1..], b[1..], i) {
        assert LessAt(a, b, i + 1);
      }
      if i: nat :| LessAt(a, b, i) {
        assert i > 0 && LessAt(a[1..], b[1..], i - 1);
      }
    } else if Less(a, b) {
      assert LessAt(a, b, 0);
    }
  }

  ghost predicate LessAt(a: string, b: string, i: nat) {
    && i <= |a| && i < |b| && (forall k :: 0 <= k < i ==> a[k] == b[k])
    && (i == |a| || a[i] < b[i])
  }

  lemma {:induction false} LessSnoc(a: string, b: string, x: char, y: char)
    requires |a| == |b|
    ensures Less(a + [x], b + [y]) <==> Less(a, b) || (a == b && x < y)
    decreases |a|
  {
    if a != [] {
      assert (a + [x])[1..] == a[1..] + [x] && (b + [y])[1..] == b[1..] + [y];
      LessSnoc(a[1..], b[1..], x, y);
      assert a == [a[0]] + a[1..] && b == [b[0]] + b[1..];
    }
  }

  lemma {:induction false} LessPrefix(p: string, a: string, b: string)
    ensures Less(p + a, p + b) == Less(a, b)
  {
    if p == [] {
      assert p + a == a && p + b == b;
    } else {
      assert (p + a)[1..] == p[1..] + a && (p + b)[1..] == p[1..] + b;
      LessPrefix(p[1..], a, b);
    }
  }

  lemma {:induction false} LessExtends(a: string, b: string, x: string)
    requires |a| == |b| && Less(a, b)
    ensures Less(a + x, b) && !Less(b, a + x)
    decreases |a|
  {
    assert (a + x)[0] == a[0];
    if a[0] == b[0] {
      assert (a + x)[1..] == a[1..] + x;
      LessExtends(a[1..], b[1..], x);
    }
  }

  lemma {:induction false} LessIsStrict(a: string, b: string)
    requires Less(a, b)
    ensures a != b && !Less(b, a)
    decreases |a|
  {
    if a != [] && a[0] == b[0] {
      LessIsStrict(a[1..], b[1..]);
    }
  }

  // ----- fixed width -----

  function Pow10(w: nat): nat {
    if w == 0 then 1 else 10 * Pow10(w - 1)
  }

  /** The w low decimal digits of n. */
  function Fixed(n: nat, w: nat): (s: string)
    ensures |s| == w
  {
    if w == 0 then "" else Fixed(n / 10, w - 1) + [Digit(n % 10)]
  }

  lemma {:induction false} FixedOrder(a: nat, b: nat, w: nat)
    requires a < b < Pow10(w)
    ensures Less(Fixed(a, w), Fixed(b, w))
  {
    if w > 0 {
      if a / 10 < b / 10 {
        FixedOrder(a / 10, b / 10, w - 1);
      }
      LessSnoc(Fixed(a / 10, w - 1), Fixed(b / 10, w - 1), Digit(a % 10), Digit(b % 10));
    }
  }

  lemma {:induction false} FixedZero(w: nat)
    ensures Fixed(0, w) == Zeros(w)
  {
    if w > 0 {
      FixedZero(w - 1);
    }
  }

  lemma {:induction false} FixedIsPadded(n: nat, w: nat)
    requires w > 0 && n < Pow10(w)
    ensures |Decimal(n)| <= w && Zeros(w - |Decimal(n)|) + Decimal(n) == Fixed(n, w)
  {
    if n < 10 {
      FixedZero(w - 1);
    } else {
      FixedIsPadded(n / 10, w - 1);
      var z := Zeros(w - |Decimal(n)|);
      assert z + (Decimal(n / 10) + [Digit(n % 10)]) == z + Decimal(n / 10) + [Digit(n % 10)];
    }
  }

  lemma PaddedIsFixed(n: nat, w: nat)
    requires w > 0 && n < Pow10(w)
    ensures |Decimal(n)| <= w && Padded(n, w) == Fixed(n, w)
  {
    FixedIsPadded(n, w);
    if |Decimal(n)| == w {
      assert Zeros(0) + Decimal(n) == Decimal(n);
    }
  }

  // ----- creation order -----

  lemma PaddedOrder(a: nat, b: nat, w: nat)
    requires w > 0 && a < b < Pow10(w)
    ensures Less(Padded(a, w), Padded(b, w))
  {
    PaddedIsFixed(a, w);
    PaddedIsFixed(b, w);
    FixedOrder(a, b, w);
  }

  lemma IdOrder(a: nat, b: nat)
    requires a < b < Pow10(WIDTH)
    ensures Less(TaskId(a), TaskId(b))
  {
    PaddedOrder(a, b, WIDTH);
    LessPrefix("JID_", Padded(a, WIDTH), Padded(b, WIDTH));
  }

  /** The first number with one digit too many sorts before numbers that precede it. */
  lemma OverflowBreaksOrder(w: nat)
    requires w >= 2
    ensures var n, m := Pow10(w), Pow10(w - 1) + 1;
      0 < m < n && Less(Padded(n, w), Padded(m, w))
  {
    var n, k := Pow10(w), Pow10(w - 1);
    assert n == 10 * k && k == 10 * Pow10(w - 2);
    Pow10Positive(w - 2);
    PaddedIsFixed(k, w);
    PaddedIsFixed(k + 1, w);
    FixedOrder(k, k + 1, w);
    DecimalWidth(k, w);
    assert Padded(k, w) == Decimal(k);
    assert Decimal(n) == Decimal(k) + [Digit(0)];
    LessExtends(Padded(k, w), Padded(k + 1, w), [Digit(0)]);
  }

  lemma {:induction false} Pow10Positive(w: nat)
    ensures Pow10(w) >= 1
  {
    if w > 0 {
      Pow10Positive(w - 1);
    }
  }

  lemma {:induction false} DecimalWidth(n: nat, w: nat)
    requires w > 0 && n >= Pow10(w - 1)
    ensures |Decimal(n)| >= w
  {
    if w > 1 {
      Pow10Positive(w - 2);
      assert n >= 10;
      DecimalWidth(n / 10, w - 1);
    }
  }

  /** The ids of the first n tasks, in creation order. */
  function Created(n: nat): (ids: seq<string>)
    ensures |ids| == n
  {
    if n == 0 then [] else Created(n - 1) + [TaskId(n)]
  }

  lemma {:induction false} CreatedAt(n: nat, i: nat)
    requires i < n
    ensures Created(n)[i] == TaskId(i + 1)
  {
    if i < n - 1 {
      CreatedAt(n - 1, i);
    }
  }

  lemma CreatedDistinct(n: nat)
    ensures Distinct(Created(n))
  {
    forall i, j | 0 <= i < j < n ensures Created(n)[i] != Created(n)[j] {
      CreatedAt(n, i);
      CreatedAt(n, j);
      if TaskId(i + 1) == TaskId(j + 1) {
        TaskIdInjective(i + 1, j + 1);
      }
    }
  }

  ghost predicate Distinct(ids: seq<string>) {
    forall i, j :: 0 <= i < j < |ids| ==> ids[i] != ids[j]
  }

  lemma {:induction false} DistinctCounts(ids: seq<string>, x: string)
    requires Distinct(ids)
    ensures multiset(ids)[x] == if x in ids then 1 else 0
  {
    if ids != [] {
      var n := |ids| - 1;
      assert ids == ids[..n] + [ids[n]];
      DistinctCounts(ids[..n], x);
    }
  }

  /** Two lists without duplicates that hold the same strings are rearrangements of each other. */
  lemma SameMembers(a: seq<string>, b: seq<string>)
    requires Distinct(a) && Distinct(b) && (forall x :: x in a <==> x in b)
    ensures multiset(a) == multiset(b)
  {
    forall x ensures multiset(a)[x] == multiset(b)[x] {
      DistinctCounts(a, x);
      DistinctCounts(b, x);
    }
  }

  ghost predicate Sorted(ids: seq<string>) {
    forall i, j :: 0 <= i < j < |ids| ==> !Less(ids[j], ids[i])
  }

  lemma CreatedInOrder(n: nat, i: nat, j: nat)
    requires i < j < n < Pow10(WIDTH)
    ensures !Less(Created(n)[j], Created(n)[i])
  {
    CreatedAt(n, i);
    CreatedAt(n, j);
    IdOrder(i + 1, j + 1);
    LessIsStrict(TaskId(i + 1), TaskId(j + 1));
  }

  lemma CreatedOutOfOrder(n: nat)
    requires n >= Pow10(WIDTH)
    ensures !Sorted(Created(n))
  {
    OverflowBreaksOrder(WIDTH);
    var m, first := Pow10(WIDTH - 1) + 1, Pow10(WIDTH);
    LessPrefix("JID_", Padded(first, WIDTH), Padded(m, WIDTH));
    CreatedAt(n, m - 1);
    CreatedAt(n, first - 1);
  }

  /** Creation order is string order exactly while fewer than 10^12 tasks have been created. */
  lemma CreationOrderSortedIff(n: nat)
    ensures Sorted(Created(n)) <==> n < Pow10(WIDTH)
  {
    if n < Pow10(WIDTH) {
      forall i, j | 0 <= i < j < n ensures !Less(Created(n)[j], Created(n)[i]) {
        CreatedInOrder(n, i, j);
      }
    } else {
      CreatedOutOfOrder(n);
    }
  }

  lemma DropLast(a: seq<string>, b: seq<string>, x: string)
    requires multiset(a + [x]) == multiset(b + [x])
    ensures multiset(a) == multiset(b)
  {
    assert multiset(a) == multiset(a + [x]) - multiset{x};
    assert multiset(b) == multiset(b + [x]) - multiset{x};
  }

  lemma NewestIsLast(ids: seq<string>, n: nat)
    requires 0 < n < Pow10(WIDTH) && multiset(ids) == multiset(Created(n)) && Sorted(ids)
    ensures |ids| == n && ids[n - 1] == TaskId(n)
  {
    assert |ids| == |multiset(ids)| == |multiset(Created(n))|;
    CreatedAt(n, n - 1);
    var i := IndexIn(Created(n), ids, n - 1);
    LastIsGreatest(ids, n, i);
  }

  /** Whatever order the map hands the ids out in, sort.Strings returns creation order: any
      sorted arrangement of the ids of n < 10^12 tasks is Created(n). */
  lemma {:induction false} SortingGivesCreationOrder(ids: seq<string>, n: nat)
    requires multiset(ids) == multiset(Created(n)) && Sorted(ids) && n < Pow10(WIDTH)
    ensures ids == Created(n)
    decreases n
  {
    if n == 0 {
      assert |multiset(ids)| == 0;
    } else {
      NewestIsLast(ids, n);
      var rest := ids[..n - 1];
      assert ids == rest + [TaskId(n)];
      DropLast(rest, Created(n - 1), TaskId(n));
      SortingGivesCreationOrder(rest, n - 1);
    }
  }

  lemma LastIsGreatest(ids: seq<string>, n: nat, i: nat)
    requires 0 < n < Pow10(WIDTH) && |ids| == n && i < n && ids[i] == TaskId(n)
    requires multiset(ids) == multiset(Created(n)) && Sorted(ids)
    ensures ids[n - 1] == TaskId(n)
  {
    var k := IndexIn(ids, Created(n), n - 1);
    CreatedAt(n, k);
    if k + 1 < n {
      IdOrder(k + 1, n);
      assert Less(ids[n - 1], ids[i]);
      LessIsStrict(ids[n - 1], ids[i]);
    }
  }

  lemma IndexIn(a: seq<string>, b: seq<string>, i: nat) returns (k: nat)
    requires multiset(a) == multiset(b) && i < |a|
    ensures k < |b| && b[k] == a[i]
  {
    assert a[i] in multiset(b);
    k :| k < |b| && b[k] == a[i];
  }

  /** The format: "JID_" and at least twelve decimal digits, no more than needed, that read as the
      counter. */
  lemma TaskIdFormat(n: nat)
    ensures var id := TaskId(n);
      && |id| >= 16 && id[..4] == "JID_"
      && (forall i :: 4 <= i < |id| ==> '0' <= id[i] <= '9')
      && Value(id[4..]) == n
      && (|id| > 16 ==> id[4] != '0')
  {
    var id := TaskId(n);
    assert id[4..] == Padded(n, WIDTH);
    ValueOfDecimal(n);
    if |Decimal(n)| < WIDTH {
      ValueOfZeros(WIDTH - |Decimal(n)|, Decimal(n));
    }
    DecimalDigits(n);
    ZerosAre(WIDTH);
    forall i | 4 <= i < |id| ensures '0' <= id[i] <= '9' {
      assert id[i] == Padded(n, WIDTH)[i - 4];
      if |Decimal(n)| < WIDTH {
        ZerosAre(WIDTH - |Decimal(n)|);
      }
    }
  }

  lemma {:induction false} DecimalDigits(n: nat)
    ensures forall i :: 0 <= i < |Decimal(n)| ==> '0' <= Decimal(n)[i] <= '9'
    ensures n > 0 ==> Decimal(n)[0] != '0'
    ensures n < 10 ==> |Decimal(n)| == 1
  {
    if n >= 10 {
      DecimalDigits(n / 10);
    }
  }

  lemma {:induction false} ZerosAre(k: nat)
    ensures forall i :: 0 <= i < k ==> Zeros(k)[i] == '0'
  {
    if k > 0 {
      ZerosAre(k - 1);
    }
  }
}
