/** The standard-library text operations that the controller stores its identities with:
    `to_string`, `stoul`/`stoull`, `boost::split`, `find`, and comma-joined lists. */
module Text {
  import opened Wrappers

  const UINT64 := 0x1_0000_0000_0000_0000
  const UINT32 := 0x1_0000_0000
  const INT32_LIMIT := 0x8000_0000

  type U64 = n: nat | n < UINT64
  type U32 = n: nat | n < UINT32

  predicate IsDigit(c: char) {
    '0' <= c <= '9'
  }

  predicate AllDigits(s: string) {
    forall i :: 0 <= i < |s| ==> IsDigit(s[i])
  }

  // ---------- decimal printing and reading ----------

  /** `std::to_string` of an unsigned value. */
  function Decimal(n: nat): (s: string)
    ensures s != [] && AllDigits(s)
  {
    var last := ['0' + (n % 10) as char];
    if n < 10 then last else Decimal(n / 10) + last
  }

  function Number(s: string): nat
    requires AllDigits(s)
  {
    if s == [] then 0
    else 10 * Number(s[..|s| - 1]) + (s[|s| - 1] - '0') as nat
  }

  lemma {:induction false} NumberOfDecimal(n: nat)
    ensures Number(Decimal(n)) == n
  {
    if n >= 10 {
      NumberOfDecimal(n / 10);
      assert Decimal(n)[..|Decimal(n)| - 1] == Decimal(n / 10);
    }
  }

  /** The leading run of digits, which is what `strtoul` converts. */
  function DigitRun(s: string): (d: string)
    ensures AllDigits(d)
  {
    if s == [] || !IsDigit(s[0]) then [] else [s[0]] + DigitRun(s[1..])
  }

  lemma {:induction false} DigitRunStops(d: string, rest: string)
    requires AllDigits(d)
    requires rest != [] ==> !IsDigit(rest[0])
    ensures DigitRun(d + rest) == d
  {
    if d == [] {
      assert d + rest == rest;
    } else {
      assert (d + rest)[1..] == d[1..] + rest;
      DigitRunStops(d[1..], rest);
    }
  }

  function SkipSpaces(s: string): string {
    if s != [] && (s[0] == ' ' || '\t' <= s[0] <= '\r') then SkipSpaces(s[1..]) else s
  }

  /** `std::stoul` and `std::stoull` with a 64-bit `unsigned long`: leading space, an optional sign
      (a minus negates modulo 2^64), then digits up to the first other character. `None` stands for
      the two exceptions, no digits and out of range. */
  function Stoul(s: string): Option<nat> {
    var t := SkipSpaces(s);
    var signed := t != [] && (t[0] == '-' || t[0] == '+');
    var digits := DigitRun(if signed then t[1..] else t);
    if digits == [] || Number(digits) >= UINT64 then None
    else if signed && t[0] == '-' then Some((UINT64 - Number(digits)) % UINT64)
    else Some(Number(digits))
  }

  /** `stoul` undoes `to_string`, and stops at whatever follows the digits. */
  lemma StoulOfDecimal(n: nat, rest: string)
    requires n < UINT64
    requires rest != [] ==> !IsDigit(rest[0])
    ensures Stoul(Decimal(n) + rest) == Some(n)
  {
    var s := Decimal(n) + rest;
    assert IsDigit(s[0]) by { assert s[0] == Decimal(n)[0]; }
    DigitRunStops(Decimal(n), rest);
    NumberOfDecimal(n);
  }

  /** It throws on a number that does not fit, and on a text that no number begins. */
  lemma StoulOverflows(n: nat)
    requires n >= UINT64
    ensures Stoul(Decimal(n)).None?
  {
    assert IsDigit(Decimal(n)[0]);
    DigitRunStops(Decimal(n), []);
    assert Decimal(n) + [] == Decimal(n);
    NumberOfDecimal(n);
  }

  lemma StoulOfNoNumber(s: string)
    requires s == [] || !(IsDigit(s[0]) || s[0] in {'+', '-', ' '} || '\t' <= s[0] <= '\r')
    ensures Stoul(s).None?
  {}

  /** The value of `(int)value` for a 32-bit `value`, as `to_string` sees it. */
  function AsInt(v: U32): (i: int)
    ensures -INT32_LIMIT <= i < INT32_LIMIT
    ensures i % UINT32 == v
  {
    if v < INT32_LIMIT then v else v - UINT32
  }

  /** `std::to_string((int)value)`. */
  function SignedDecimal(v: U32): (s: string)
    ensures s != []
    ensures forall i :: 0 <= i < |s| ==> IsDigit(s[i]) || s[i] == '-'
  {
    if AsInt(v) < 0 then ['-'] + Decimal(-AsInt(v)) else Decimal(AsInt(v))
  }

  lemma SignExtension(v: U32)
    ensures AsInt(v) % UINT64 == if v < INT32_LIMIT then v else v + (UINT64 - UINT32)
    ensures AsInt(v) % UINT64 % UINT32 == v
    ensures AsInt(v) % UINT64 % 0x1_0000 == v % 0x1_0000
  {
    if v >= INT32_LIMIT {
      assert AsInt(v) % UINT64 == v + 0xFFFF_FFFF * UINT32;
      assert AsInt(v) % UINT64 == v + 0xFFFF_FFFF_0000 * 0x1_0000;
    }
  }

  /** Reading a printed `int` back as `unsigned long` sign-extends it to 64 bits, so the two differ
      from 2^31 on, while the low 32 bits (and so the low 16) always come back. */
  lemma StoulOfSignedDecimal(v: U32)
    ensures Stoul(SignedDecimal(v)) == Some(AsInt(v) % UINT64)
    ensures AsInt(v) % UINT64 % UINT32 == v
    ensures AsInt(v) % UINT64 % 0x1_0000 == v % 0x1_0000
    ensures AsInt(v) % UINT64 == v <==> v < INT32_LIMIT
  {
    SignExtension(v);
    if AsInt(v) < 0 {
      DigitRunStops(Decimal(-AsInt(v)), []);
      assert Decimal(-AsInt(v)) + [] == SignedDecimal(v)[1..];
      NumberOfDecimal(-AsInt(v));
    } else {
      StoulOfDecimal(v, []);
      assert Decimal(v) + [] == SignedDecimal(v);
    }
  }

  // ---------- splitting and joining ----------

  predicate Free(s: string, seps: set<char>) {
    forall i :: 0 <= i < |s| ==> s[i] !in seps
  }

  /** `boost::split` with `is_any_of(seps)` and no token compression. */
  function Split(s: string, seps: set<char>): (parts: seq<string>)
    ensures 1 <= |parts| <= |s| + 1
  {
    if s == [] then [[]]
    else
      var rest := Split(s[1..], seps);
      if s[0] in seps then [[]] + rest else [[s[0]] + rest[0]] + rest[1..]
  }

  /** Splitting is a homomorphism at every separator. */
  lemma {:induction false} SplitAt(s: string, c: char, t: string, seps: set<char>)
    requires c in seps
    ensures Split(s + [c] + t, seps) == Split(s, seps) + Split(t, seps)
  {
    if s == [] {
      assert (s + [c] + t)[1..] == t;
    } else {
      assert (s + [c] + t)[1..] == s[1..] + [c] + t;
      SplitAt(s[1..], c, t, seps);
    }
  }

  lemma {:induction false} SplitFree(s: string, seps: set<char>)
    requires Free(s, seps)
    ensures Split(s, seps) == [s]
  {
    if s != [] {
      SplitFree(s[1..], seps);
      assert [s[0]] + s[1..] == s;
    }
  }

  /** What a loop of `append(item + ',')` builds. */
  function Terminated(items: seq<string>): string {
    if items == [] then [] else Terminated(items[..|items| - 1]) + items[|items| - 1] + [',']
  }

  /** The list that `pop_back` leaves of it. */
  function Joined(items: seq<string>): string
    requires items != []
  {
    if |items| == 1 then items[0] else Joined(items[..|items| - 1]) + [','] + items[|items| - 1]
  }

  lemma {:induction false} PopBackOfTerminated(items: seq<string>)
    requires items != []
    ensures Terminated(items) == Joined(items) + [',']
  {
    if |items| > 1 {
      PopBackOfTerminated(items[..|items| - 1]);
    }
  }

  /** Splitting a joined list at its commas gives the items back, in order. */
  lemma {:induction false} SplitOfJoined(items: seq<string>)
    requires items != [] && forall i :: 0 <= i < |items| ==> Free(items[i], {','})
    ensures Split(Joined(items), {','}) == items
  {
    var last := items[|items| - 1];
    SplitFree(last, {','});
    if |items| > 1 {
      var front := items[..|items| - 1];
      SplitOfJoined(front);
      SplitAt(Joined(front), ',', last, {','});
      assert front + [last] == items;
    }
  }

  lemma {:induction false} JoinedStarts(items: seq<string>) returns (rest: string)
    requires items != []
    ensures Joined(items) == items[0] + rest
    ensures rest != [] ==> rest[0] == ','
  {
    if |items| == 1 {
      rest := [];
    } else {
      var front, last := items[..|items| - 1], items[|items| - 1];
      var r := JoinedStarts(front);
      rest := r + [','] + last;
      assert Joined(items) == (items[0] + r) + [','] + last;
    }
  }

  // ---------- searching ----------

  predicate OccursAt(text: string, part: string, i: int) {
    0 <= i && i + |part| <= |text| && text[i..i + |part|] == part
  }

  /** `text.find(part) != npos`. */
  predicate Contains(text: string, part: string) {
    exists i | 0 <= i <= |text| :: OccursAt(text, part, i)
  }

  lemma OccurrenceAvoids(text: string, part: string, i: nat, c: char)
    requires OccursAt(text, part, i) && c !in part
    ensures forall j :: i <= j < i + |part| ==> text[j] != c
  {
    forall j | i <= j < i + |part|
      ensures text[j] != c
    {
      assert text[j] == text[i..i + |part|][j - i];
    }
  }

  lemma OccursLeft(a: string, rest: string, part: string, i: nat)
    requires i + |part| <= |a|
    ensures OccursAt(a + rest, part, i) <==> OccursAt(a, part, i)
  {
    assert (a + rest)[i..i + |part|] == a[i..i + |part|];
  }

  lemma OccursRight(front: string, b: string, part: string, i: nat)
    ensures OccursAt(front + b, part, |front| + i) <==> OccursAt(b, part, i)
  {
    if i + |part| <= |b| {
      assert (front + b)[|front| + i..|front| + i + |part|] == b[i..i + |part|];
    }
  }

  lemma OccursInOne(a: string, c: char, b: string, part: string, i: nat)
    requires c !in part && part != [] && OccursAt(a + [c] + b, part, i)
    ensures OccursAt(a, part, i) || (i > |a| && OccursAt(b, part, i - |a| - 1))
  {
    OccurrenceAvoids(a + [c] + b, part, i, c);
    assert (a + [c] + b)[|a|] == c;
    assert a + [c] + b == a + ([c] + b);
    if i + |part| <= |a| {
      OccursLeft(a, [c] + b, part, i);
    } else if i > |a| {
      OccursRight(a + [c], b, part, i - |a| - 1);
    }
  }

  /** A part without the separator occurs in `a,b` only inside `a` or inside `b`. */
  lemma ContainsAt(a: string, c: char, b: string, part: string)
    requires c !in part && part != []
    ensures Contains(a + [c] + b, part) <==> Contains(a, part) || Contains(b, part)
  {
    var text := a + [c] + b;
    assert text == a + ([c] + b);
    if i :| 0 <= i <= |text| && OccursAt(text, part, i) {
      OccursInOne(a, c, b, part, i);
    }
    if i :| 0 <= i <= |a| && OccursAt(a, part, i) {
      OccursLeft(a, [c] + b, part, i);
    }
    if i :| 0 <= i <= |b| && OccursAt(b, part, i) {
      OccursRight(a + [c], b, part, i);
      assert OccursAt(text, part, |a + [c]| + i);
    }
  }

  /** So a substring search in a joined list is a substring search in its items. */
  lemma {:induction false} ContainsInJoined(items: seq<string>, part: string)
    requires items != [] && part != [] && ',' !in part
    ensures Contains(Joined(items), part) <==> exists k :: 0 <= k < |items| && Contains(items[k], part)
  {
    if |items| > 1 {
      var front := items[..|items| - 1];
      ContainsInJoined(front, part);
      ContainsAt(Joined(front), ',', items[|items| - 1], part);
      assert forall k :: 0 <= k < |front| ==> front[k] == items[k];
    }
  }
}
