/** Message options: values, lookup, replacement and the order in which they are printed
    (options.go, common.go:26-49, 91-116). */
module Options {
  import opened Prelude
  import opened Integers

  const IF_MATCH := 1
  const URI_HOST := 3
  const ETAG := 4
  const OBSERVE := 6
  const URI_PORT := 7
  const LOCATION_PATH := 8
  const URI_PATH := 11
  const CONTENT_FORMAT := 12
  const MAX_AGE := 14
  const URI_QUERY := 15
  const ACCEPT := 17
  const LOCATION_QUERY := 20
  const BLOCK2 := 23
  const BLOCK1 := 27
  const SIZE2 := 28
  const PROXY_URI := 35
  const PROXY_SCHEME := 39
  const SIZE1 := 60
  const URI_SCHEME := 2111
  const WINDOW_SIZE := 3001
  const PROXY_SECURITY_ID := 3004
  const HANDSHAKE_TYPE := 3999
  const SESSION_NOT_FOUND := 4001
  const SESSION_EXPIRED := 4003
  const COAPS_URI := 4005
  const CHECKSUM := 4006

  const COAP_SCHEME := 0
  const COAPS_SCHEME := 1

  /** An option value: a string, a byte slice, any of the integer types the printer knows, or anything else
      (no value, or a type the printer prints as nothing). */
  datatype Value = Text(s: seq<byte>) | Blob(b: seq<byte>) | Num(n: int) | Nil

  datatype Opt = Opt(code: nat, value: Value)

  function ValueBytes(v: Value): seq<byte> {
    match v
    case Text(s) => s
    case Blob(b) => b
    case Num(n) => EncodeInt(Uint32(n))
    case Nil => []
  }

  function StringValue(v: Value): seq<byte> { if v.Text? then v.s else [] }

  // decimal digits, as strconv.Atoi reads them
  function Digits(s: seq<byte>): Option<nat> {
    if s == [] then Some(0)
    else
      var front, d := Digits(s[..|s| - 1]), s[|s| - 1];
      if front.Some? && 48 <= d <= 57 then Some(front.value * 10 + (d as int - 48)) else None
  }

  /** strconv.Atoi with errors (no digits, foreign characters, out of 64 bits) read as 0. */
  function Atoi(s: seq<byte>): int {
    var signed := s != [] && s[0] in {43, 45};
    var digits := if signed then s[1..] else s;
    var n := Digits(digits);
    if digits == [] || n.None? then 0
    else if signed && s[0] == 45 then (if n.value <= 0x8000_0000_0000_0000 then -(n.value as int) else 0)
    else if n.value < 0x8000_0000_0000_0000 then n.value else 0
  }

  /** A number in decimal, without leading zeros. */
  function Decimal(n: nat): (s: seq<byte>)
    ensures |s| > 0 && s[0] !in {43, 45}
  {
    if n < 10 then [48 + n] else Decimal(n / 10) + [48 + n % 10]
  }

  lemma {:induction false} DigitsOfDecimal(n: nat)
    ensures Digits(Decimal(n)) == Some(n)
  {
    var s := Decimal(n);
    if n < 10 {
      assert s[..0] == [];
    } else {
      DigitsOfDecimal(n / 10);
      assert s[..|s| - 1] == Decimal(n / 10);
    }
  }

  lemma {:induction false} DigitsExactly(s: seq<byte>)
    ensures Digits(s).Some? <==> forall i :: 0 <= i < |s| ==> 48 <= s[i] <= 57
  {
    if s != [] {
      DigitsExactly(s[..|s| - 1]);
      assert forall i :: 0 <= i < |s| - 1 ==> s[..|s| - 1][i] == s[i];
    }
  }

  /** A byte that is no digit, behind the place of a sign, makes the whole be read as 0. */
  lemma ForeignIsZero(s: seq<byte>, i: nat)
    requires 0 < i < |s| && !(48 <= s[i] <= 57)
    ensures Atoi(s) == 0
  {
    DigitsExactly(s);
    DigitsExactly(s[1..]);
    assert s[1..][i - 1] == s[i];
  }

  /** Decimals are read as what they say when 64 bits can hold it, and otherwise as 0. */
  lemma AtoiReadsDecimals(n: nat)
    ensures Atoi(Decimal(n)) == Atoi([43] + Decimal(n)) == if n < 0x8000_0000_0000_0000 then n else 0
    ensures Atoi([45] + Decimal(n)) == if n <= 0x8000_0000_0000_0000 then -(n as int) else 0
  {
    DigitsOfDecimal(n);
    assert ([43] + Decimal(n))[1..] == Decimal(n) && ([45] + Decimal(n))[1..] == Decimal(n);
  }

  function IntValue(v: Value): int {
    match v
    case Num(n) => n
    case Text(s) => Atoi(s)
    case _ => 0
  }

  predicate IsRepeatable(code: nat) {
    code in {IF_MATCH, ETAG, LOCATION_PATH, URI_PATH, URI_QUERY, LOCATION_QUERY}
  }

  // ---------------------------------------------------------------- lookup and replacement

  function GetOptions(opts: seq<Opt>, code: nat): seq<Opt> {
    if opts == [] then []
    else if opts[0].code == code then [opts[0]] + GetOptions(opts[1..], code)
    else GetOptions(opts[1..], code)
  }

  function RemoveOptions(opts: seq<Opt>, code: nat): seq<Opt> {
    if opts == [] then []
    else if opts[0].code != code then [opts[0]] + RemoveOptions(opts[1..], code)
    else RemoveOptions(opts[1..], code)
  }

  function GetOption(opts: seq<Opt>, code: nat): Option<Opt> {
    var found := GetOptions(opts, code);
    if found == [] then None else Some(found[0])
  }

  /** The first scheme option says coaps. */
  predicate IsSecure(opts: seq<Opt>) {
    var scheme := GetOption(opts, URI_SCHEME);
    scheme.Some? && !scheme.value.value.Nil? && IntValue(scheme.value.value) == COAPS_SCHEME
  }

  function AddOption(opts: seq<Opt>, o: Opt): seq<Opt> {
    (if IsRepeatable(o.code) then opts else RemoveOptions(opts, o.code)) + [o]
  }

  function AddOptions(opts: seq<Opt>, more: seq<Opt>): seq<Opt> {
    if more == [] then opts else AddOption(AddOptions(opts, more[..|more| - 1]), more[|more| - 1])
  }

  lemma {:induction false} GetAppend(a: seq<Opt>, b: seq<Opt>, code: nat)
    ensures GetOptions(a + b, code) == GetOptions(a, code) + GetOptions(b, code)
  {
    if a == [] {
      assert a + b == b;
    } else {
      assert (a + b)[0] == a[0] && (a + b)[1..] == a[1..] + b;
      GetAppend(a[1..], b, code);
    }
  }

  lemma {:induction false} GetRemove(opts: seq<Opt>, removed: nat, code: nat)
    ensures GetOptions(RemoveOptions(opts, removed), code) == if code == removed then [] else GetOptions(opts, code)
  {
    if opts != [] {
      GetRemove(opts[1..], removed, code);
      if opts[0].code != removed {
        assert RemoveOptions(opts, removed)[1..] == RemoveOptions(opts[1..], removed);
      }
    }
  }

  /** Adding an option of code `c` touches only the options of code `c`: it joins them if they may repeat and
      replaces them otherwise. */
  lemma GetAdd(opts: seq<Opt>, o: Opt, code: nat)
    ensures GetOptions(AddOption(opts, o), code) ==
            if code != o.code then GetOptions(opts, code)
            else if IsRepeatable(code) then GetOptions(opts, code) + [o]
            else [o]
  {
    GetRemove(opts, o.code, code);
    GetAppend(if IsRepeatable(o.code) then opts else RemoveOptions(opts, o.code), [o], code);
    assert [o][1..] == [];
  }

  /** The codes that may repeat: If-Match, ETag, Location-Path, Uri-Path, Uri-Query and Location-Query of RFC 7252. */
  lemma CodesThatRepeat(opts: seq<Opt>, o: Opt)
    ensures |GetOptions(AddOption(opts, o), o.code)| ==
            if o.code in {1, 4, 8, 11, 15, 20} then |GetOptions(opts, o.code)| + 1 else 1
  {
    GetAdd(opts, o, o.code);
  }

  lemma {:induction false} GetIsMember(opts: seq<Opt>, code: nat, i: nat)
    requires i < |GetOptions(opts, code)|
    ensures GetOptions(opts, code)[i].code == code && GetOptions(opts, code)[i] in opts
  {
    if opts[0].code == code {
      if i > 0 { GetIsMember(opts[1..], code, i - 1); }
    } else {
      GetIsMember(opts[1..], code, i);
    }
  }

  lemma {:induction false} MemberIsGot(opts: seq<Opt>, o: Opt)
    requires o in opts
    ensures o in GetOptions(opts, o.code)
  {
    if o != opts[0] {
      assert o in opts[1..];
      MemberIsGot(opts[1..], o);
    }
  }

  // ---------------------------------------------------------------- sorting

  predicate Sorted(opts: seq<Opt>) { forall i, j :: 0 <= i < j < |opts| ==> opts[i].code <= opts[j].code }

  /** Puts `x` behind everything that is not greater. */
  function Insert(t: seq<Opt>, x: Opt): (r: seq<Opt>)
    ensures |r| == |t| + 1
  {
    if t == [] || t[|t| - 1].code <= x.code then t + [x]
    else Insert(t[..|t| - 1], x) + [t[|t| - 1]]
  }

  function Sort(opts: seq<Opt>): (r: seq<Opt>)
    ensures |r| == |opts|
  {
    if opts == [] then [] else Insert(Sort(opts[..|opts| - 1]), opts[|opts| - 1])
  }

  lemma {:induction false} InsertSorts(t: seq<Opt>, x: Opt)
    requires Sorted(t)
    ensures Sorted(Insert(t, x))
    ensures forall o :: o in Insert(t, x) ==> o in t || o == x
  {
    if t != [] && t[|t| - 1].code > x.code {
      var front, last := t[..|t| - 1], t[|t| - 1];
      InsertSorts(front, x);
      forall i | 0 <= i < |Insert(front, x)| ensures Insert(front, x)[i].code <= last.code {
        assert Insert(front, x)[i] in Insert(front, x);
      }
    }
  }

  lemma {:induction false} InsertByCode(t: seq<Opt>, x: Opt, code: nat)
    requires Sorted(t)
    ensures GetOptions(Insert(t, x), code) == GetOptions(t, code) + if x.code == code then [x] else []
  {
    if t == [] || t[|t| - 1].code <= x.code {
      GetAppend(t, [x], code);
      assert [x][1..] == [];
    } else {
      var front, last := t[..|t| - 1], t[|t| - 1];
      InsertByCode(front, x, code);
      GetAppend(Insert(front, x), [last], code);
      GetAppend(front, [last], code);
      assert front + [last] == t && [last][1..] == [];
    }
  }

  /** Sorting orders by code and keeps the options of each code in their order. */
  lemma {:induction false} SortIsStable(opts: seq<Opt>, code: nat)
    ensures Sorted(Sort(opts))
    ensures GetOptions(Sort(opts), code) == GetOptions(opts, code)
  {
    if opts != [] {
      var front, last := opts[..|opts| - 1], opts[|opts| - 1];
      SortIsStable(front, code);
      InsertSorts(Sort(front), last);
      InsertByCode(Sort(front), last, code);
      GetAppend(front, [last], code);
      assert front + [last] == opts && [last][1..] == [];
    }
  }

  ghost predicate SameByCode(a: seq<Opt>, b: seq<Opt>) {
    forall code: nat :: GetOptions(a, code) == GetOptions(b, code)
  }

  /** ... and that determines the result. */
  lemma {:induction false} SortedIsUnique(a: seq<Opt>, b: seq<Opt>)
    requires Sorted(a) && Sorted(b) && SameByCode(a, b)
    ensures a == b
  {
    if a == [] {
      var code := if b == [] then 0 else b[0].code;
      assert GetOptions(a, code) == GetOptions(b, code);
    } else {
      assert GetOptions(a, a[0].code) == GetOptions(b, a[0].code);
      GetIsMember(b, a[0].code, 0);
      assert GetOptions(a, b[0].code) == GetOptions(b, b[0].code);
      GetIsMember(a, b[0].code, 0);
      assert a[0].code == b[0].code && a[0] == b[0];
      forall code: nat ensures GetOptions(a[1..], code) == GetOptions(b[1..], code) {
        var skip := if a[0].code == code then 1 else 0;
        assert GetOptions(a, code)[skip..] == GetOptions(a[1..], code);
        assert GetOptions(b, code)[skip..] == GetOptions(b[1..], code);
      }
      SortedIsUnique(a[1..], b[1..]);
    }
  }

  lemma SortDetermined(a: seq<Opt>, b: seq<Opt>)
    requires SameByCode(a, b)
    ensures Sort(a) == Sort(b)
  {
    forall code: nat ensures GetOptions(Sort(a), code) == GetOptions(Sort(b), code) {
      SortIsStable(a, code);
      SortIsStable(b, code);
      assert GetOptions(a, code) == GetOptions(b, code);
    }
    SortIsStable(a, 0);
    SortIsStable(b, 0);
    SortedIsUnique(Sort(a), Sort(b));
  }

  lemma SortOfSorted(opts: seq<Opt>)
    ensures Sort(opts) == opts <==> Sorted(opts)
  {
    SortIsStable(opts, 0);
    if Sorted(opts) {
      forall code: nat ensures GetOptions(Sort(opts), code) == GetOptions(opts, code) { SortIsStable(opts, code); }
      SortedIsUnique(Sort(opts), opts);
    }
  }

  lemma SortKeepsMembers(opts: seq<Opt>, o: Opt)
    ensures o in Sort(opts) <==> o in opts
  {
    SortIsStable(opts, o.code);
    if o in opts {
      MemberIsGot(opts, o);
      var i :| 0 <= i < |GetOptions(opts, o.code)| && GetOptions(opts, o.code)[i] == o;
      GetIsMember(Sort(opts), o.code, i);
    }
    if o in Sort(opts) {
      MemberIsGot(Sort(opts), o);
      var i :| 0 <= i < |GetOptions(opts, o.code)| && GetOptions(opts, o.code)[i] == o;
      GetIsMember(opts, o.code, i);
    }
  }

  lemma InsertPasses(front: seq<Opt>, j: nat, x: Opt, moved: seq<Opt>)
    requires 0 < j <= |front| && x.code < front[j - 1].code
    ensures Insert(front[..j], x) + moved == Insert(front[..j - 1], x) + ([front[j - 1]] + moved)
  {
    assert front[..j][..j - 1] == front[..j - 1];
  }

  lemma Exchange(front: seq<Opt>, j: nat, x: Opt, moved: seq<Opt>, back: seq<Opt>)
    requires 0 < j <= |front|
    ensures (front[..j] + [x] + moved + back)[j := front[j - 1]][j - 1 := x]
         == front[..j - 1] + [x] + ([front[j - 1]] + moved) + back
  {
  }

  /** One round of the insertion sort that the library runs on a short list, with the exchange of the program:
      element `i` moves down past the greater ones.  The fix-up in that exchange looks strictly between its
      two positions, which here are neighbours. */
  method InsertInPlace(a: array<Opt>, i: nat)
    requires i < a.Length
    modifies a
    ensures a[..] == Insert(old(a[..i]), old(a[i])) + old(a[i + 1..])
  {
    ghost var x, front, back := a[i], a[..i], a[i + 1..];
    var j := i;
    ghost var moved: seq<Opt> := [];
    assert front[..j] == front;
    while j > 0 && a[j].code < a[j - 1].code
      invariant j <= i
      invariant a[..] == front[..j] + [x] + moved + back
      invariant Insert(front[..j], x) + moved == Insert(front, x)
    {
      ghost var before := a[..];
      assert before[j] == x && before[j - 1] == front[j - 1];
      InsertPasses(front, j, x, moved);
      Exchange(front, j, x, moved, back);
      a[j], a[j - 1] := a[j - 1], a[j];
      assert a[..] == before[j := front[j - 1]][j - 1 := x];
      moved := [front[j - 1]] + moved;
      j := j - 1;
    }
    ghost var after := a[..];
    assert after[j] == x && (j > 0 ==> after[j - 1] == front[j - 1]);
    assert Insert(front[..j], x) == front[..j] + [x];
  }

  method SortInPlace(a: array<Opt>)
    modifies a
    ensures a[..] == Sort(old(a[..]))
  {
    ghost var given := a[..];
    var i := 0;
    while i < a.Length
      invariant 0 <= i <= a.Length
      invariant a[..] == Sort(given[..i]) + given[i..]
    {
      ghost var front := Sort(given[..i]);
      assert a[..i] == front && a[i] == given[i] && a[i + 1..] == given[i + 1..];
      InsertInPlace(a, i);
      assert given[..i + 1][..i] == given[..i];
      assert Sort(given[..i + 1]) == Insert(front, given[i]);
      i := i + 1;
    }
    assert given[..i] == given;
  }
}
