/** Routing of shard keys to tables: by remainder and by number range. */
module Shard {
  import opened Wrappers

  const MAX_INT64 := 0x7fff_ffff_ffff_ffff
  const TWO_TO_64 := 0x1_0000_0000_0000_0000

  type Int64 = x: int | -MAX_INT64 - 1 <= x <= MAX_INT64
  type Uint64 = x: int | 0 <= x < TWO_TO_64
  type Uint32 = x: int | 0 <= x < 0x1_0000_0000

  // The CRC-32 checksum of a byte string.
  type Checksum = string -> Uint32

  datatype Error = KeyNotExist | KeyOutOfRange | MultiShard

  // A shard key by its dynamic type; a Go string is a string of bytes.
  datatype Key =
    | IntKey(n: Int64)
    | Uint64Key(u: Uint64)
    | Int64Key(l: Int64)
    | StringKey(text: string)
    | BytesKey(bytes: string)
    | OtherKey

  datatype Result<+T> = Ok(value: T) | Err(error: Error) | Panicked

  // -------------------------------------------------------------------------------- Conversions

  // int64 arithmetic wraps around.
  function Wrapped(x: int): Int64 {
    var r := x % TWO_TO_64;
    if r <= MAX_INT64 then r else r - TWO_TO_64
  }

  function ToUint64(x: Int64): Uint64 {
    if x < 0 then x + TWO_TO_64 else x
  }

  function DigitOf(d: nat): char
    requires d < 10
  {
    '0' + d as char
  }

  function Decimal(n: nat): (s: string)
    ensures s != [] && (n > 0 ==> s[0] != '0')
  {
    if n < 10 then [DigitOf(n)] else Decimal(n / 10) + [DigitOf(n % 10)]
  }

  // strconv.Itoa
  function Itoa(n: int): string {
    if n < 0 then "-" + Decimal(-n) else Decimal(n)
  }

  predicate IsDigits(s: string) {
    forall i :: 0 <= i < |s| ==> '0' <= s[i] <= '9'
  }

  function ValueOf(s: string): nat
    requires IsDigits(s)
  {
    if s == [] then 0 else 10 * ValueOf(s[..|s| - 1]) + (s[|s| - 1] - '0') as nat
  }

  // strconv.ParseUint with base 10 and 64 bits.
  function ParseUint(s: string): Option<Uint64> {
    if s != [] && IsDigits(s) && ValueOf(s) < TWO_TO_64 then Some(ValueOf(s)) else None
  }

  // strconv.ParseInt with base 10 and 64 bits.
  function ParseInt(s: string): Option<Int64> {
    var signed := s != [] && (s[0] == '+' || s[0] == '-');
    match ParseUint(if signed then s[1..] else s)
    case None => None
    case Some(magnitude) =>
      var n: int := if s[0] == '-' then 0 - magnitude else magnitude;
      if -MAX_INT64 - 1 <= n <= MAX_INT64 then Some(n) else None
  }

  function Pow10(n: nat): (p: nat)
    ensures p > 0
  {
    if n == 0 then 1 else 10 * Pow10(n - 1)
  }

  lemma {:induction false} DecimalIsRead(n: nat)
    ensures IsDigits(Decimal(n)) && ValueOf(Decimal(n)) == n
  {
    if n >= 10 {
      DecimalIsRead(n / 10);
      assert Decimal(n)[..|Decimal(n)| - 1] == Decimal(n / 10);
    }
  }

  lemma TimesTen(a: int, p: int)
    ensures a * (10 * p) == 10 * (a * p)
  {
  }

  lemma {:induction false} ValueOfConcat(a: string, b: string)
    requires IsDigits(a) && IsDigits(b)
    ensures IsDigits(a + b) && ValueOf(a + b) == ValueOf(a) * Pow10(|b|) + ValueOf(b)
  {
    if b == [] {
      assert a + b == a;
    } else {
      var rest, last := b[..|b| - 1], b[|b| - 1];
      ValueOfConcat(a, rest);
      assert (a + b)[..|a + b| - 1] == a + rest;
      TimesTen(ValueOf(a), Pow10(|rest|));
    }
  }

  lemma ParsedMagnitude(s: string, n: nat)
    requires s != [] && IsDigits(s) && ValueOf(s) == n
    ensures n <= MAX_INT64 ==> ParseInt(s) == Some(n)
    ensures n <= MAX_INT64 + 1 ==> ParseInt("-" + s) == Some(0 - n)
    ensures n > MAX_INT64 ==> ParseInt(s) == None
    ensures n > MAX_INT64 + 1 ==> ParseInt("-" + s) == None
  {
    hide ValueOf, IsDigits;
    assert '0' <= s[0] <= '9' by {
      FirstDigit(s);
    }
    assert ("-" + s)[1..] == s;
  }

  lemma FirstDigit(s: string)
    requires s != [] && IsDigits(s)
    ensures '0' <= s[0] <= '9'
  {
  }

  /** Printing and parsing an int64 gives it back. */
  lemma ItoaIsParsed(n: int)
    requires -MAX_INT64 - 1 <= n <= MAX_INT64
    ensures ParseInt(Itoa(n)) == Some(n)
  {
    hide Decimal, ValueOf, ParseInt, IsDigits;
    var magnitude := if n < 0 then -n else n;
    DecimalIsRead(magnitude);
    ParsedMagnitude(Decimal(magnitude), magnitude);
  }

  // -------------------------------------------------------------------------------- Spelling

  // The ints one after the other.
  function Spelled(ns: seq<int>): string {
    if ns == [] then [] else Spelled(ns[..|ns| - 1]) + Itoa(ns[|ns| - 1])
  }

  lemma SpelledAppend(ns: seq<int>, n: int)
    ensures Spelled(ns + [n]) == Spelled(ns) + Itoa(n) && Digits(ns + [n]) == Digits(ns) + Decimal(Abs(n))
  {
    assert (ns + [n])[..|ns|] == ns;
  }

  function Abs(n: int): nat { if n < 0 then -n else n }

  // Their digits without signs, and the number that these write.
  function Digits(ns: seq<int>): string {
    if ns == [] then [] else Digits(ns[..|ns| - 1]) + Decimal(Abs(ns[|ns| - 1]))
  }

  function Number(ns: seq<int>): nat {
    if ns == [] then 0
    else
      var last := Abs(ns[|ns| - 1]);
      Number(ns[..|ns| - 1]) * Pow10(|Decimal(last)|) + last
  }

  lemma {:induction false} DigitsWriteNumber(ns: seq<int>)
    ensures IsDigits(Digits(ns)) && ValueOf(Digits(ns)) == Number(ns) && (ns != [] ==> Digits(ns) != [])
  {
    hide Pow10, Decimal, ValueOf, IsDigits;
    if ns == [] {
      NothingIsZero();
    } else {
      var rest, last := ns[..|ns| - 1], Abs(ns[|ns| - 1]);
      DigitsWriteNumber(rest);
      DecimalIsRead(last);
      ValueOfConcat(Digits(rest), Decimal(last));
    }
  }

  lemma NothingIsZero()
    ensures IsDigits("") && ValueOf("") == 0
  {
  }

  // No int after the first is negative.
  ghost predicate LaterNotNegative(ns: seq<int>) {
    forall i :: 1 <= i < |ns| ==> ns[i] >= 0
  }

  lemma {:induction false} SpelledIsDigits(ns: seq<int>)
    requires LaterNotNegative(ns)
    ensures Spelled(ns) == (if ns != [] && ns[0] < 0 then "-" else "") + Digits(ns)
  {
    hide Decimal, Spelled, Digits;
    NothingIsParsed();
    if ns != [] {
      var rest, last := ns[..|ns| - 1], ns[|ns| - 1];
      SpelledIsDigits(rest);
      assert ns == rest + [last];
      SpelledAppend(rest, last);
      var sign := if ns[0] < 0 then "-" else "";
      if rest == [] {
        assert sign + ([] + Decimal(Abs(last))) == [] + (sign + Decimal(Abs(last)));
      } else {
        assert rest[0] == ns[0];
        assert (sign + Digits(rest)) + Decimal(last) == sign + (Digits(rest) + Decimal(last));
      }
    }
  }

  lemma SpelledNumber(ns: seq<int>)
    ensures LaterNotNegative(ns) && ns != [] && ns[0] >= 0 ==>
      IsDigits(Spelled(ns)) && ValueOf(Spelled(ns)) == Number(ns) && Spelled(ns) != []
  {
    hide Decimal, Spelled, Digits, Number, ValueOf, IsDigits;
    DigitsWriteNumber(ns);
    if LaterNotNegative(ns) && ns != [] && ns[0] >= 0 {
      SpelledIsDigits(ns);
      assert "" + Digits(ns) == Digits(ns);
    }
  }

  lemma {:induction false} SpelledIsNotEmpty(ns: seq<int>)
    ensures ns != [] ==> Spelled(ns) != []
  {
    hide Decimal;
  }

  // The minus sign of the i-th int is not among the first i bytes.
  lemma {:induction false} MinusIsSpelled(ns: seq<int>, i: nat)
    requires i < |ns| && ns[i] < 0
    ensures exists j :: (if i == 0 then 0 else 1) <= j < |Spelled(ns)| && Spelled(ns)[j] == '-'
  {
    hide Decimal;
    var rest := ns[..|ns| - 1];
    if i == |ns| - 1 {
      SpelledIsNotEmpty(rest);
      assert Spelled(ns)[|Spelled(rest)|] == '-';
    } else {
      MinusIsSpelled(rest, i);
      var j :| (if i == 0 then 0 else 1) <= j < |Spelled(rest)| && Spelled(rest)[j] == '-';
      assert Spelled(ns)[j] == '-';
    }
  }

  // -------------------------------------------------------------------------------- By remainder

  function ModValue(crc: Checksum, key: Key): Result<Uint64> {
    match key
    case IntKey(n) => Ok(ToUint64(n))
    case Uint64Key(n) => Ok(n)
    case Int64Key(n) => Ok(ToUint64(n))
    case StringKey(s) => Ok(match ParseUint(s) case Some(n) => n case None => crc(s))
    case BytesKey(s) => Ok(crc(s))
    case OtherKey => Err(KeyNotExist)
  }

  // The values of the keys one after the other; a key without value is skipped.
  function Printed(crc: Checksum, keys: seq<Key>): string {
    if keys == [] then []
    else
      var r := ModValue(crc, keys[|keys| - 1]);
      Printed(crc, keys[..|keys| - 1]) + (if r.Ok? then Itoa(Wrapped(r.value)) else [])
  }

  // The value that a list of keys is routed by.
  function Combined(crc: Checksum, keys: seq<Key>): Result<Uint64> {
    if |keys| == 1 then ModValue(crc, keys[0]) else ModValue(crc, StringKey(Printed(crc, keys)))
  }

  function Remainder(m: Result<Uint64>, shardNum: Int64): Result<int>
    requires shardNum != 0
  {
    match m case Ok(n) => Ok(Wrapped(n % ToUint64(shardNum))) case Err(e) => Err(e) case Panicked => Panicked
  }

  /** FindForKey of ModShard: the remainder of the combined value, or the error of the only key. */
  method ModFindForKey(crc: Checksum, shardNum: Int64, keys: seq<Key>) returns (r: Result<int>)
    ensures r == if shardNum == 0 then Panicked else Remainder(Combined(crc, keys), shardNum)
    ensures shardNum > 0 && Combined(crc, keys).Ok? ==> r == Ok(Combined(crc, keys).value % shardNum)
    ensures shardNum < 0 && Combined(crc, keys).Ok? ==>
      r == Ok(Wrapped(Combined(crc, keys).value % (shardNum + 0x1_0000_0000_0000_0000)))
    ensures shardNum != 0 && Combined(crc, keys).Err? ==> r == Err(Combined(crc, keys).error)
  {
    var m;
    if |keys| == 1 {
      m := ModValue(crc, keys[0]);
    } else {
      var printed := "";
      for i := 0 to |keys|
        invariant printed == Printed(crc, keys[..i])
      {
        assert keys[..i + 1][..i] == keys[..i];
        var v := ModValue(crc, keys[i]);
        if v.Err? {
          continue;
        }
        printed := printed + Itoa(Wrapped(v.value));
      }
      assert keys[..|keys|] == keys;
      m := ModValue(crc, StringKey(printed));
    }
    if shardNum == 0 {
      return Panicked;
    }
    return Remainder(m, shardNum);
  }

  /** An int and its decimal string are worth the same if and only if the int is not negative. */
  lemma IntAndTextAgreeIff(crc: Checksum, n: Int64)
    ensures ModValue(crc, IntKey(n)) == ModValue(crc, StringKey(Itoa(n))) <==> n >= 0
  {
    if n >= 0 {
      DecimalIsRead(n);
    } else {
      assert Itoa(n)[0] == '-';
    }
  }

  /** An unsigned or signed number that is not negative has the same value whatever its type and as a
      decimal string, but not as bytes, which are always summed. */
  lemma TypesAgree(crc: Checksum, u: Uint64)
    ensures ModValue(crc, Uint64Key(u)) == ModValue(crc, StringKey(Itoa(u))) == Ok(u)
    ensures u <= MAX_INT64 ==> ModValue(crc, IntKey(u)) == ModValue(crc, Int64Key(u)) == Ok(u)
    ensures ModValue(crc, BytesKey(Itoa(u))) == Ok(crc(Itoa(u)))
  {
    hide Decimal, ValueOf, IsDigits;
    DecimalIsRead(u);
  }

  /** Conversions between int64 and uint64 keep the value modulo 2^64. */
  lemma ConversionsWrap(x: int, n: Int64)
    ensures (Wrapped(x) - x) % 0x1_0000_0000_0000_0000 == 0
    ensures ToUint64(n) == if n >= 0 then n else n + 0x1_0000_0000_0000_0000
  {
    var r := x % TWO_TO_64;
    assert x == TWO_TO_64 * (x / TWO_TO_64) + r;
    var k := if r <= MAX_INT64 then -(x / TWO_TO_64) else -(x / TWO_TO_64) - 1;
    assert Wrapped(x) - x == TWO_TO_64 * k;
    MultipleIsZero(k);
  }

  lemma MultipleIsZero(k: int)
    ensures (TWO_TO_64 * k) % TWO_TO_64 == 0
  {
  }

  /** What a single key is worth: an integer its value modulo 2^64, a text its number when it is one below
      2^64 and its checksum otherwise, bytes always their checksum; anything else has no value. */
  lemma SingleKeyIs(crc: Checksum, s: string, n: Int64, u: Uint64)
    ensures Combined(crc, [StringKey(s)]) == Ok(
      if s != "" && IsDigits(s) && ValueOf(s) < 0x1_0000_0000_0000_0000 then ValueOf(s) else crc(s))
    ensures Combined(crc, [BytesKey(s)]) == Ok(crc(s))
    ensures Combined(crc, [IntKey(n)]) == Combined(crc, [Int64Key(n)])
      == Ok(if n >= 0 then n else n + 0x1_0000_0000_0000_0000)
    ensures Combined(crc, [Uint64Key(u)]) == Ok(u) && Combined(crc, [OtherKey]) == Err(KeyNotExist)
  {
    hide ValueOf, IsDigits;
  }

  // The keys print one after the other.
  lemma {:induction false} PrintedConcat(crc: Checksum, a: seq<Key>, b: seq<Key>)
    ensures Printed(crc, a + b) == Printed(crc, a) + Printed(crc, b)
    decreases |b|
  {
    hide Itoa, ModValue, Wrapped;
    if b == [] {
      assert a + b == a && Printed(crc, a) + [] == Printed(crc, a);
    } else {
      var rest := b[..|b| - 1];
      PrintedConcat(crc, a, rest);
      assert (a + b)[..|a + b| - 1] == a + rest;
    }
  }

  lemma PrintedOne(crc: Checksum, n: Int64)
    ensures Printed(crc, [OtherKey]) == "" && Printed(crc, [IntKey(n)]) == Itoa(n)
  {
    hide Itoa, Wrapped, ToUint64;
    WrappedAgain(n);
    assert [OtherKey][..0] == [] && [IntKey(n)][..0] == [];
  }

  lemma WrappedAgain(x: Int64)
    ensures Wrapped(ToUint64(x)) == x
  {
  }

  /** A key without value is skipped wherever it stands, and an int prints its decimal there. */
  lemma KeysArePrinted(crc: Checksum, a: seq<Key>, n: Int64, b: seq<Key>)
    ensures Printed(crc, a + [OtherKey] + b) == Printed(crc, a + b)
    ensures Printed(crc, a + [IntKey(n)] + b) == Printed(crc, a) + Itoa(n) + Printed(crc, b)
  {
    hide Printed, Itoa;
    PrintedOne(crc, n);
    PrintedConcat(crc, a, b);
    PrintedConcat(crc, a, [OtherKey]);
    PrintedConcat(crc, a + [OtherKey], b);
    PrintedConcat(crc, a, [IntKey(n)]);
    PrintedConcat(crc, a + [IntKey(n)], b);
  }

  /** Keys of the same values are routed alike, in any list. */
  lemma {:induction false} SameValuesSameRoute(crc: Checksum, a: seq<Key>, b: seq<Key>)
    requires |a| == |b| && forall i :: 0 <= i < |a| ==> ModValue(crc, a[i]) == ModValue(crc, b[i])
    ensures Printed(crc, a) == Printed(crc, b) && Combined(crc, a) == Combined(crc, b)
  {
    if a != [] {
      SameValuesSameRoute(crc, a[..|a| - 1], b[..|b| - 1]);
    }
  }

  // The values of the keys that have one.
  function ModValues(crc: Checksum, keys: seq<Key>): seq<Uint64> {
    if keys == [] then []
    else
      var r := ModValue(crc, keys[|keys| - 1]);
      ModValues(crc, keys[..|keys| - 1]) + (if r.Ok? then [r.value] else [])
  }

  function WrappedAll(ns: seq<Uint64>): (r: seq<int>)
    ensures |r| == |ns| && forall i :: 0 <= i < |ns| ==> r[i] == Wrapped(ns[i])
  {
    seq(|ns|, i requires 0 <= i < |ns| => Wrapped(ns[i]))
  }

  lemma {:induction false} PrintedIsSpelled(crc: Checksum, keys: seq<Key>)
    ensures Printed(crc, keys) == Spelled(WrappedAll(ModValues(crc, keys)))
  {
    hide Wrapped, ModValue, Itoa, Spelled;
    NothingIsParsed();
    if keys != [] {
      var rest := keys[..|keys| - 1];
      PrintedIsSpelled(crc, rest);
      var r := ModValue(crc, keys[|keys| - 1]);
      if r.Ok? {
        SpelledAppend(WrappedAll(ModValues(crc, rest)), Wrapped(r.value));
        assert WrappedAll(ModValues(crc, keys)) == WrappedAll(ModValues(crc, rest)) + [Wrapped(r.value)];
      } else {
        assert ModValues(crc, rest) + [] == ModValues(crc, rest) && Printed(crc, rest) + [] == Printed(crc, rest);
      }
    }
  }

  ghost predicate AllSmall(ns: seq<int>) {
    forall i :: 0 <= i < |ns| ==> ns[i] <= MAX_INT64
  }

  /** Every list of no or several keys, of any types: it is routed by the number that the values of
      its keys spell together, if there is a value, none exceeds the greatest int64 and the number fits
      64 bits; otherwise by the checksum of what they print. */
  lemma ListIsRoutedBy(crc: Checksum, keys: seq<Key>)
    requires |keys| != 1
    ensures var values := ModValues(crc, keys);
      Combined(crc, keys) == Ok(
        if values != [] && AllSmall(values) && Number(values) < TWO_TO_64 then Number(values)
        else crc(Printed(crc, keys)))
  {
    hide Number, ValueOf, Wrapped, Printed, ModValues, Spelled, Decimal;
    var values := ModValues(crc, keys);
    NothingIsParsed();
    PrintedIsSpelled(crc, keys);
    SmallAreNotWrapped(values);
    SpelledNumber(WrappedAll(values));
    if i :| 0 <= i < |values| && values[i] > MAX_INT64 {
      MinusIsSpelled(WrappedAll(values), i);
    }
  }

  lemma SmallAreNotWrapped(ns: seq<Uint64>)
    ensures AllSmall(ns) ==> WrappedAll(ns) == ns
    ensures forall i :: 0 <= i < |ns| ==> (ns[i] > MAX_INT64 <==> WrappedAll(ns)[i] < 0)
  {
  }

  /** With a positive number of shards a value is routed to its remainder, one of the shards: no
      conversion wraps. */
  lemma RemainderIsAShard(m: Uint64, shardNum: Int64)
    requires shardNum > 0
    ensures Remainder(Ok(m), shardNum) == Ok(m % shardNum) && 0 <= m % shardNum < shardNum
  {
  }

  // -------------------------------------------------------------------------------- By range

  datatype NumKeyRange = NumKeyRange(start: Int64, end: Int64) {
    predicate Contains(i: Int64) {
      start <= i && (end == MAX_INT64 || i < end)
    }
  }

  function NumValue(key: Key): Result<Int64> {
    match key
    case IntKey(n) => Ok(n)
    case Uint64Key(n) => Ok(Wrapped(n))
    case Int64Key(n) => Ok(n)
    case StringKey(s) => (match ParseInt(s) case Some(n) => Ok(n) case None => Panicked)
    case BytesKey(s) => (match ParseInt(s) case Some(n) => Ok(n) case None => Panicked)
    case OtherKey => Err(KeyNotExist)
  }

  /** An int64 has the same value for the ranges in every type and printed as text or bytes. */
  lemma NumTypesAgree(n: Int64)
    ensures NumValue(IntKey(n)) == NumValue(Int64Key(n)) == NumValue(Uint64Key(ToUint64(n))) == Ok(n)
    ensures NumValue(StringKey(Itoa(n))) == NumValue(BytesKey(Itoa(n))) == Ok(n)
  {
    hide Itoa, ParseInt;
    ItoaIsParsed(n);
  }

  /** What a single key is worth for the ranges: an integer its value, wrapped to int64 when it is unsigned,
      a text or bytes the number with an optional sign that it spells; a malformed one panics. */
  lemma SingleNumKeyIs(s: string, n: Int64, u: Uint64)
    ensures NumCombined([StringKey(s)]) == NumCombined([BytesKey(s)])
    ensures var digits := if s != "" && (s[0] == '+' || s[0] == '-') then s[1..] else s;
      if digits == "" || !IsDigits(digits) then NumCombined([StringKey(s)]) == Panicked
      else
        var v: int := if s[0] == '-' then 0 - ValueOf(digits) else ValueOf(digits);
        if -0x8000_0000_0000_0000 <= v < 0x8000_0000_0000_0000 then NumCombined([StringKey(s)]) == Ok(v)
        else NumCombined([StringKey(s)]) == Panicked
    ensures NumCombined([IntKey(n)]) == NumCombined([Int64Key(n)]) == Ok(n)
    ensures NumCombined([Uint64Key(u)]) == Ok(if u < 0x8000_0000_0000_0000 then u else u - 0x1_0000_0000_0000_0000)
    ensures NumCombined([OtherKey]) == Err(KeyNotExist)
  {
    hide ValueOf, IsDigits;
  }

  function RangeOf(limit: Int64, i: nat): NumKeyRange {
    NumKeyRange(Wrapped(i * limit), Wrapped((i + 1) * limit))
  }

  /** ParseNumSharding: consecutive ranges, with the bounds wrapped to 64 bits. */
  method ParseNumSharding(locations: Int64, limit: Int64) returns (r: Result<seq<NumKeyRange>>)
    ensures locations < 0 <==> r == Panicked
    ensures locations >= 0 ==> r == Ok(Ranges(locations, limit))
    ensures locations >= 0 ==> |r.value| == locations
    ensures locations >= 0 ==> forall i :: 0 <= i < locations ==>
      r.value[i] == NumKeyRange(Wrapped(i * limit), Wrapped((i + 1) * limit))
  {
    if locations < 0 {
      return Panicked;
    }
    var ranges := new NumKeyRange[locations](_ => NumKeyRange(0, 0));
    for i := 0 to locations
      invariant forall k :: 0 <= k < i ==> ranges[k] == RangeOf(limit, k)
    {
      ranges[i] := NumKeyRange(Wrapped(i * limit), Wrapped((i + 1) * limit));
    }
    assert ranges[..] == Ranges(locations, limit);
    return Ok(ranges[..]);
  }

  function Ranges(locations: nat, limit: Int64): seq<NumKeyRange> {
    seq(locations, i requires 0 <= i < locations => RangeOf(limit, i))
  }

  // The first range that contains a value.
  function Scan(shards: seq<NumKeyRange>, v: Int64): Result<int> {
    if shards == [] then Err(KeyOutOfRange)
    else if shards[0].Contains(v) then Ok(0)
    else match Scan(shards[1..], v) case Ok(i) => Ok(i + 1) case other => other
  }

  function Scanned(shards: seq<NumKeyRange>, v: Result<Int64>): Result<int> {
    match v case Ok(n) => Scan(shards, n) case Err(e) => Err(e) case Panicked => Panicked
  }

  lemma {:induction false} ScanIsFirst(shards: seq<NumKeyRange>, v: Int64, i: nat)
    requires i <= |shards| && forall k :: 0 <= k < i ==> !shards[k].Contains(v)
    ensures i < |shards| && shards[i].Contains(v) ==> Scan(shards, v) == Ok(i)
    ensures i == |shards| ==> Scan(shards, v) == Err(KeyOutOfRange)
  {
    if i > 0 {
      ScanIsFirst(shards[1..], v, i - 1);
    }
  }

  lemma {:induction false} ScanContains(shards: seq<NumKeyRange>, v: Int64)
    ensures Scan(shards, v).Ok? ==> 0 <= Scan(shards, v).value < |shards| && shards[Scan(shards, v).value].Contains(v)
  {
    if shards != [] && !shards[0].Contains(v) {
      ScanContains(shards[1..], v);
    }
  }

  // The decimals of the keys one after the other; panics like NumValue.
  function NumPrinted(keys: seq<Key>): Option<string> {
    if keys == [] then Some([])
    else
      var r := NumValue(keys[|keys| - 1]);
      match NumPrinted(keys[..|keys| - 1])
      case None => None
      case Some(s) => if r.Panicked? then None else Some(s + (if r.Ok? then Itoa(r.value) else []))
  }

  function NumCombined(keys: seq<Key>): Result<Int64> {
    if |keys| == 1 then NumValue(keys[0])
    else match NumPrinted(keys) case Some(s) => NumValue(StringKey(s)) case None => Panicked
  }

  lemma {:induction false} NumPrintedPanics(keys: seq<Key>, n: nat)
    requires n <= |keys| && NumPrinted(keys[..n]).None?
    ensures NumPrinted(keys).None?
    decreases |keys| - n
  {
    if n == |keys| {
      assert keys[..n] == keys;
    } else {
      assert keys[..n + 1][..n] == keys[..n];
      NumPrintedPanics(keys, n + 1);
    }
  }

  // The value lies in the range; a range that ends at the greatest int64 has no end.
  ghost predicate In(r: NumKeyRange, v: int) {
    r.start <= v && (v < r.end || r.end == 0x7fff_ffff_ffff_ffff)
  }

  /** FindForKey of NumRangeShard: the first range that contains the combined value. */
  method RangeFindForKey(shards: seq<NumKeyRange>, keys: seq<Key>) returns (r: Result<int>)
    ensures r == if shards == [] then Err(MultiShard) else Scanned(shards, NumCombined(keys))
    ensures r.Ok? ==> NumCombined(keys).Ok? && 0 <= r.value < |shards|
    ensures r.Ok? ==> In(shards[r.value], NumCombined(keys).value)
    ensures r.Ok? ==> forall k :: 0 <= k < r.value ==> !In(shards[k], NumCombined(keys).value)
    ensures shards != [] && NumCombined(keys).Ok? ==>
      (r == Err(KeyOutOfRange) <==> forall k :: 0 <= k < |shards| ==> !In(shards[k], NumCombined(keys).value))
  {
    if |shards| == 0 {
      return Err(MultiShard);
    }
    var v;
    if |keys| == 1 {
      v := NumValue(keys[0]);
    } else {
      var printed := "";
      for i := 0 to |keys|
        invariant NumPrinted(keys[..i]) == Some(printed)
      {
        assert keys[..i + 1][..i] == keys[..i];
        var n := NumValue(keys[i]);
        match n {
          case Panicked =>
            NumPrintedPanics(keys, i + 1);
            return Panicked;
          case Err(_) => assert printed + [] == printed;
          case Ok(value) => printed := printed + Itoa(value);
        }
      }
      assert keys[..|keys|] == keys;
      v := NumValue(StringKey(printed));
    }
    match v {
      case Panicked => return Panicked;
      case Err(e) => return Err(e);
      case Ok(value) =>
        for i := 0 to |shards|
          invariant forall k :: 0 <= k < i ==> !shards[k].Contains(value)
        {
          if shards[i].Contains(value) {
            ScanIsFirst(shards, value, i);
            return Ok(i);
          }
        }
        ScanIsFirst(shards, value, |shards|);
        return Err(KeyOutOfRange);
    }
  }

  function NumValues(keys: seq<Key>): seq<Int64> {
    if keys == [] then []
    else
      var r := NumValue(keys[|keys| - 1]);
      NumValues(keys[..|keys| - 1]) + (if r.Ok? then [r.value] else [])
  }

  ghost predicate NonePanics(keys: seq<Key>) {
    forall i :: 0 <= i < |keys| ==> !NumValue(keys[i]).Panicked?
  }

  lemma {:induction false} NumPrintedIsSpelled(keys: seq<Key>)
    ensures NumPrinted(keys) == if NonePanics(keys) then Some(Spelled(NumValues(keys))) else None
  {
    hide NumValue, Itoa, Spelled, NonePanics;
    NothingIsParsed();
    NothingPanics();
    if keys != [] {
      var rest := keys[..|keys| - 1];
      NumPrintedIsSpelled(rest);
      NonePanicsStep(keys);
      var r := NumValue(keys[|keys| - 1]);
      if r.Ok? {
        SpelledAppend(NumValues(rest), r.value);
      } else if r.Err? {
        assert NumValues(rest) + [] == NumValues(rest) && Spelled(NumValues(rest)) + [] == Spelled(NumValues(rest));
      }
    }
  }

  lemma NothingPanics()
    ensures NonePanics([])
  {
  }

  lemma NonePanicsStep(keys: seq<Key>)
    requires keys != []
    ensures NonePanics(keys) <==> NonePanics(keys[..|keys| - 1]) && !NumValue(keys[|keys| - 1]).Panicked?
  {
    hide NumValue;
  }

  function OneMore(printed: Option<string>, r: Result<Int64>): Option<string> {
    match printed
    case None => None
    case Some(s) => if r.Panicked? then None else Some(s + (if r.Ok? then Itoa(r.value) else []))
  }

  lemma NumPrintedNext(keys: seq<Key>, key: Key)
    ensures NumPrinted(keys + [key]) == OneMore(NumPrinted(keys), NumValue(key))
  {
    hide NumValue, Itoa;
    assert (keys + [key])[..|keys|] == keys;
  }

  lemma SkippedNext(printed: Option<string>)
    ensures OneMore(printed, NumValue(OtherKey)) == printed
  {
    assert printed.Some? ==> printed.value + [] == printed.value;
  }

  /** A key without value is skipped wherever it stands. */
  lemma {:induction false} NumSkips(a: seq<Key>, b: seq<Key>)
    ensures NumPrinted(a + [OtherKey] + b) == NumPrinted(a + b)
    decreases |b|
  {
    hide NumPrinted, NumValue, OneMore;
    if b == [] {
      assert a + [OtherKey] + b == a + [OtherKey] && a + b == a;
      NumPrintedNext(a, OtherKey);
      SkippedNext(NumPrinted(a));
    } else {
      var rest, last := b[..|b| - 1], b[|b| - 1];
      NumSkips(a, rest);
      NumPrintedNext(a + [OtherKey] + rest, last);
      NumPrintedNext(a + rest, last);
      assert a + [OtherKey] + b == (a + [OtherKey] + rest) + [last] && a + b == (a + rest) + [last];
    }
  }

  // The number that ints spell together, with the sign of the first.
  function Signed(ns: seq<int>): int {
    var n: int := Number(ns);
    if ns != [] && ns[0] < 0 then 0 - n else n
  }

  /** Every list of no or several keys, of any types: it is scanned for the number that the values of
      its keys spell together, if every text is a number, there is a value, none after the first is
      negative and the number fits int64; otherwise the call panics. */
  lemma ListIsScannedFor(keys: seq<Key>)
    requires |keys| != 1
    ensures var values := NumValues(keys);
      NumCombined(keys) ==
        if NonePanics(keys) && values != [] && LaterNotNegative(values)
           && -MAX_INT64 - 1 <= Signed(values) <= MAX_INT64
        then Ok(Signed(values)) else Panicked
  {
    hide NumPrinted, NumValues, NonePanics, Spelled, ParseInt, Number;
    NumPrintedIsSpelled(keys);
    if NonePanics(keys) {
      SpelledIsParsed(NumValues(keys));
    }
  }

  lemma SpelledIsParsed(ns: seq<int>)
    ensures ParseInt(Spelled(ns)) ==
      if ns != [] && LaterNotNegative(ns) && -MAX_INT64 - 1 <= Signed(ns) <= MAX_INT64 then Some(Signed(ns)) else None
  {
    hide Number, Decimal, Digits, Spelled, ParseInt;
    if ns == [] {
      NothingIsParsed();
    } else if LaterNotNegative(ns) {
      SpelledIsDigits(ns);
      DigitsWriteNumber(ns);
      ParsedMagnitude(Digits(ns), Number(ns));
      assert "" + Digits(ns) == Digits(ns);
    } else {
      var i :| 1 <= i < |ns| && ns[i] < 0;
      MinusIsSpelled(ns, i);
      MinusIsNotParsed(Spelled(ns));
    }
  }

  lemma NothingIsParsed()
    ensures Spelled([]) == Digits([]) == [] && ParseInt([]) == None && ParseUint([]) == None
  {
  }

  lemma MinusIsNotParsed(s: string)
    requires exists j :: 1 <= j < |s| && s[j] == '-'
    ensures ParseInt(s) == None
  {
    hide ValueOf;
    var j :| 1 <= j < |s| && s[j] == '-';
    assert s[1..][j - 1] == '-';
  }

  // The value goes to the table of its quotient, or to none.
  ghost predicate Routes(locations: nat, limit: Int64, v: Int64)
    requires limit > 0
  {
    Scan(Ranges(locations, limit), v) == if 0 <= v < locations * limit then Ok(v / limit) else Err(KeyOutOfRange)
  }

  lemma TimesIsMonotonic(a: int, b: int, c: int)
    requires a <= b && c > 0
    ensures a * c <= b * c
  {
  }

  lemma BoundsDoNotWrap(locations: nat, limit: Int64, i: nat)
    requires limit > 0 && i < locations && locations * limit < MAX_INT64
    ensures RangeOf(limit, i).start == i * limit && RangeOf(limit, i).end == (i + 1) * limit < MAX_INT64
  {
    TimesIsMonotonic(i + 1, locations, limit);
    TimesIsMonotonic(0, i, limit);
    TimesIsMonotonic(i, i + 1, limit);
  }

  lemma QuotientBounds(v: int, limit: int)
    requires limit > 0
    ensures v / limit * limit <= v < (v / limit + 1) * limit
  {
    var q := v / limit;
    assert v == limit * q + v % limit;
    assert (q + 1) * limit == q * limit + limit;
  }

  lemma Quotient(v: int, limit: int, i: int)
    requires limit > 0
    ensures i * limit <= v < (i + 1) * limit <==> i == v / limit
  {
    var q := v / limit;
    QuotientBounds(v, limit);
    if i > q {
      TimesIsMonotonic(q + 1, i, limit);
    } else if i < q {
      TimesIsMonotonic(i + 1, q, limit);
    }
  }

  lemma ContainsIffQuotient(locations: nat, limit: Int64, i: nat, v: Int64)
    requires limit > 0 && i < locations && locations * limit < MAX_INT64
    ensures RangeOf(limit, i).Contains(v) <==> i == v / limit
  {
    BoundsDoNotWrap(locations, limit, i);
    Quotient(v, limit, i);
  }

  lemma QuotientInRange(locations: nat, limit: int, v: int)
    requires limit > 0
    ensures 0 <= v < locations * limit <==> 0 <= v / limit < locations
  {
    var q := v / limit;
    QuotientBounds(v, limit);
    if q < 0 {
      TimesIsMonotonic(q + 1, 0, limit);
    } else if q < locations {
      TimesIsMonotonic(q + 1, locations, limit);
      TimesIsMonotonic(0, q, limit);
    } else {
      TimesIsMonotonic(locations, q, limit);
    }
  }

  lemma {:induction false} SmallTablesRoute(locations: nat, limit: Int64, v: Int64)
    requires limit > 0 && locations * limit < MAX_INT64
    ensures Routes(locations, limit, v)
  {
    var shards := Ranges(locations, limit);
    var q := v / limit;
    forall k | 0 <= k < locations ensures shards[k].Contains(v) <==> k == q {
      ContainsIffQuotient(locations, limit, k, v);
    }
    QuotientInRange(locations, limit, v);
    ScanIsFirst(shards, v, if 0 <= q < locations then q else locations);
  }

  lemma WrapsBelowZero(x: int)
    requires MAX_INT64 < x < TWO_TO_64
    ensures Wrapped(x) < 0
  {
  }

  // The greatest key goes wrong when the bounds reach it.
  lemma LastKeyGoesWrong(locations: nat, limit: Int64)
    requires limit > 0 && locations * limit >= MAX_INT64
    ensures !Routes(locations, limit, MAX_INT64)
  {
    var shards := Ranges(locations, limit);
    if locations * limit == MAX_INT64 {
      var i := locations - 1;
      assert i * limit == MAX_INT64 - limit;
      assert shards[i].Contains(MAX_INT64);
      ContainedIsFound(shards, MAX_INT64, i);
    } else {
      var q := MAX_INT64 / limit;
      QuotientInRange(locations, limit, MAX_INT64);
      Quotient(MAX_INT64, limit, q);
      assert (q + 1) * limit == q * limit + limit;
      WrapsBelowZero((q + 1) * limit);
      assert shards[q].end < 0;
      ScanContains(shards, MAX_INT64);
    }
  }

  lemma {:induction false} ContainedIsFound(shards: seq<NumKeyRange>, v: Int64, i: nat)
    requires i < |shards| && shards[i].Contains(v)
    ensures Scan(shards, v).Ok?
  {
    if !shards[0].Contains(v) {
      ContainedIsFound(shards[1..], v, i - 1);
    }
  }

  /** The tables route every key to its quotient, and the keys outside to none, if and only if the
      end of the last range stays below the greatest int64. */
  lemma TablesRouteIff(locations: nat, limit: Int64)
    requires limit > 0
    ensures (forall v: Int64 :: Routes(locations, limit, v)) <==> locations * limit < MAX_INT64
  {
    if locations * limit < MAX_INT64 {
      forall v: Int64 ensures Routes(locations, limit, v) {
        SmallTablesRoute(locations, limit, v);
      }
    } else {
      LastKeyGoesWrong(locations, limit);
    }
  }
}
