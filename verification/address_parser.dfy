/**
 `parseAddress` in main/main.c: a dotted-quad parser for the static IP address
 setting.

 The text is read byte by byte. Digits go into a 4-byte `buf` as a C string
 (at most three of them, `index` counting them); at each `.` the value of `buf`
 is stored into `ip[octet]` and `octet` advances, but `buf` is not cleared.
 After the last byte the value of `buf` is stored once more if `buf` is not
 empty, and the result is whether exactly four values were stored.

 Three things follow from the code as written: an empty field (two dots in a
 row, or a trailing dot) stores the previous field's value again; `ip[octet]`
 is written without a bound, so text with four or more dots writes `ip[4]`;
 and `buf` is read before anything was written into it when the text is empty
 or starts with a dot, which is undefined behaviour in C.
 */
module AddressParser {
  import opened Bytes

  /** A C string that `buf` can hold once a digit has been written to it. */
  type Digits = d: seq<byte> | 1 <= |d| <= 3 && AllDigits(d) witness [48]

  /** The contents of `buf`: never written yet, or the digits of the most
      recent non-empty field. */
  datatype Buf = Unset | Holds(digits: Digits)

  /** The values stored so far are `ip`, indexed by position; a key of 4 or
      more is a write past the end of the caller's `int ip[4]`. */
  datatype State = State(octet: nat, index: nat, buf: Buf, ip: map<nat, nat>)

  /** The function's result, or `Undefined` when it reads `buf` before anything
      was written into it. */
  datatype Outcome = Returned(ok: bool, ip: map<nat, nat>) | Undefined

  datatype Progress = Going(st: State) | Stopped(out: Outcome)

  /** `index` counts the digits of the current field, and they are `buf`. */
  predicate Valid(st: State) {
    && st.index <= 3
    && (st.index > 0 ==> st.buf.Holds? && |st.buf.digits| == st.index)
  }

  const Start: State := State(0, 0, Unset, map[])

  /** The digits of the current field so far. */
  function Run(st: State): seq<byte>
    requires Valid(st)
  {
    if st.index == 0 then [] else st.buf.digits
  }

  /** `strtol(buf, NULL, 10)` on `buf`'s digits. */
  function Value(d: Digits): (v: nat)
    ensures v <= 999
  {
    assert Pow10(|d|) <= Pow10(3) == 1000 by { PowMonotone(|d|, 3); }
    DecimalValue(d)
  }

  /** One iteration of the `for` loop. */
  function Char(c: byte, st: State): (p: Progress)
    requires Valid(st)
    ensures p.Going? ==> Valid(p.st)
  {
    if c == DOT then
      match st.buf
      case Unset => Stopped(Undefined)
      case Holds(d) => Going(State(st.octet + 1, 0, st.buf, st.ip[st.octet := Value(d)]))
    else if st.index == 3 then Stopped(Returned(false, st.ip))
    else if !IsDigit(c) then Stopped(Returned(false, st.ip))
    else Going(st.(index := st.index + 1, buf := Holds(Run(st) + [c])))
  }

  /** The `for` loop over the remaining bytes. */
  function Loop(text: seq<byte>, st: State): (p: Progress)
    requires Valid(st)
    ensures p.Going? ==> Valid(p.st)
    decreases |text|
  {
    if |text| == 0 then Going(st)
    else match Char(text[0], st)
      case Stopped(o) => Stopped(o)
      case Going(s) => Loop(text[1..], s)
  }

  /** After the loop: `if (strlen(buf) > 0)` store once more, then check the count. */
  function Finish(st: State): Outcome {
    match st.buf
    case Unset => Undefined
    case Holds(d) => Returned(st.octet + 1 == 4, st.ip[st.octet := Value(d)])
  }

  function ParseAddress(text: CString): Outcome {
    match Loop(text, Start)
    case Stopped(o) => o
    case Going(st) => Finish(st)
  }

  predicate Accepted(text: CString) {
    ParseAddress(text).Returned? && ParseAddress(text).ok
  }

  // ---------------------------------------------------------------------------
  // Reference: the text as dot-separated fields

  /** Index of the first `.`, or the length when there is none. */
  function DotIndex(s: seq<byte>): (k: nat)
    ensures k <= |s|
    ensures k < |s| ==> s[k] == DOT
  {
    if |s| == 0 || s[0] == DOT then 0 else 1 + DotIndex(s[1..])
  }

  /** No dot comes before the first one. */
  lemma {:induction false} DotIndexFirst(s: seq<byte>)
    ensures forall j | 0 <= j < DotIndex(s) :: s[j] != DOT
  {
    if |s| > 0 && s[0] != DOT {
      DotIndexFirst(s[1..]);
    }
  }

  /** The fields between the dots; there is always one more than there are dots. */
  function Split(s: seq<byte>): (fs: seq<seq<byte>>)
    ensures |fs| >= 1
    decreases |s|
  {
    var k := DotIndex(s);
    if k == |s| then [s] else [s[..k]] + Split(s[k + 1..])
  }

  /** A field the loop gets through: at most three bytes, all digits. */
  predicate Good(f: seq<byte>) {
    |f| <= 3 && AllDigits(f)
  }

  predicate AllGood(fs: seq<seq<byte>>) {
    forall i | 0 <= i < |fs| :: Good(fs[i])
  }

  /** What `buf` holds once field `i` has been read, starting from `b`: the
      last non-empty field up to `i`, or `b` if they are all empty. */
  function Carried(b: Buf, fs: seq<seq<byte>>, i: nat): Buf
    requires AllGood(fs) && i < |fs|
    decreases i
  {
    if fs[i] != [] then Holds(fs[i]) else if i == 0 then b else Carried(b, fs, i - 1)
  }

  /** The state after a good field and the dot that ends it. */
  function AfterDot(f: seq<byte>, st: State): State
    requires Good(f) && (st.buf.Holds? || f != [])
  {
    var b := if f == [] then st.buf else Holds(f);
    State(st.octet + 1, 0, b, st.ip[st.octet := Value(b.digits)])
  }

  /** The parse, field by field: a field that is not good ends it with false;
      otherwise every dot and the end store the value of the last non-empty
      field. */
  function ByFields(fs: seq<seq<byte>>, st: State): Outcome
    requires |fs| >= 1
    decreases |fs|
  {
    var f := fs[0];
    if !Good(f) then Returned(false, st.ip)
    else
      var b := if f == [] then st.buf else Holds(f);
      if |fs| == 1 then Finish(st.(buf := b))
      else if b.Unset? then Undefined
      else ByFields(fs[1..], AfterDot(f, st))
  }

  // ---------------------------------------------------------------------------
  // The byte loop follows the fields

  function Then(p: Progress, rest: seq<byte>): Progress
    requires p.Going? ==> Valid(p.st)
  {
    match p
    case Stopped(o) => Stopped(o)
    case Going(s) => Loop(rest, s)
  }

  /** Running the loop over two pieces is running it over the whole. */
  lemma {:induction false} LoopAppend(a: seq<byte>, b: seq<byte>, st: State)
    requires Valid(st)
    ensures Loop(a + b, st) == Then(Loop(a, st), b)
    decreases |a|
  {
    if |a| == 0 {
      assert a + b == b;
    } else {
      assert (a + b)[0] == a[0];
      assert (a + b)[1..] == a[1..] + b;
      match Char(a[0], st)
      case Stopped(o) =>
      case Going(s) =>
        LoopAppend(a[1..], b, s);
    }
  }

  /** The loop over a field (no dot in it), from partway through that field. */
  lemma {:induction false} FieldFrom(f: seq<byte>, st: State)
    requires Valid(st) && DOT !in f
    ensures Loop(f, st) ==
      if !AllDigits(f) || st.index + |f| > 3 then Stopped(Returned(false, st.ip))
      else Going(st.(index := st.index + |f|, buf := if f == [] then st.buf else Holds(Run(st) + f)))
    decreases |f|
  {
    if |f| > 0 {
      var c, rest := f[0], f[1..];
      assert f == [c] + rest;
      if st.index < 3 && IsDigit(c) {
        var s := st.(index := st.index + 1, buf := Holds(Run(st) + [c]));
        assert Char(c, st) == Going(s);
        FieldFrom(rest, s);
        assert Run(s) + rest == Run(st) + f;
        assert AllDigits(f) <==> AllDigits(rest) by {
          assert forall j | 0 <= j < |rest| :: rest[j] == f[j + 1];
        }
      }
    }
  }

  /** A whole field, from its start. */
  lemma Field(f: seq<byte>, st: State)
    requires Valid(st) && st.index == 0 && DOT !in f
    ensures Loop(f, st) ==
      if !Good(f) then Stopped(Returned(false, st.ip))
      else Going(st.(index := |f|, buf := if f == [] then st.buf else Holds(f)))
  {
    FieldFrom(f, st);
  }

  /** The fields of text that starts with a field and a dot. */
  lemma SplitAt(s: seq<byte>)
    requires DotIndex(s) < |s|
    ensures var k := DotIndex(s);
      && s == s[..k] + [DOT] + s[k + 1..]
      && Split(s) == [s[..k]] + Split(s[k + 1..])
      && DOT !in s[..k]
  {
    var k := DotIndex(s);
    Rejoin(s, k);
    DotIndexFirst(s);
    NoDotBefore(s, k);
  }

  /** A sequence is its part before `k`, its element at `k`, and the rest. */
  lemma Rejoin<T>(s: seq<T>, k: nat)
    requires k < |s|
    ensures s == s[..k] + [s[k]] + s[k + 1..]
  {
    assert s[k..] == [s[k]] + s[k + 1..];
    assert s == s[..k] + s[k..];
  }

  lemma NoDotBefore(s: seq<byte>, k: nat)
    requires k <= |s| && forall j | 0 <= j < k :: s[j] != DOT
    ensures DOT !in s[..k]
  {
    assert forall j | 0 <= j < k :: s[..k][j] == s[j];
  }

  function Complete(p: Progress): Outcome
    requires p.Going? ==> Valid(p.st)
  {
    match p
    case Stopped(o) => o
    case Going(s) => Finish(s)
  }

  /** The loop over a field and the dot after it. */
  lemma FieldThenDot(f: seq<byte>, rest: seq<byte>, st: State)
    requires Valid(st) && st.index == 0 && DOT !in f
    ensures Loop(f + [DOT] + rest, st) ==
      if !Good(f) then Stopped(Returned(false, st.ip))
      else if st.buf.Unset? && f == [] then Stopped(Undefined)
      else Loop(rest, AfterDot(f, st))
  {
    LoopAppend(f, [DOT] + rest, st);
    assert f + [DOT] + rest == f + ([DOT] + rest);
    Field(f, st);
    if Good(f) {
      var s1 := st.(index := |f|, buf := if f == [] then st.buf else Holds(f));
      LoopAppend([DOT], rest, s1);
    }
  }

  /** The byte loop and the field reference agree on every text, from any
      state at the start of a field. */
  lemma {:induction false} LoopByFields(s: seq<byte>, st: State)
    requires Valid(st) && st.index == 0
    ensures Complete(Loop(s, st)) == ByFields(Split(s), st)
    decreases |s|
  {
    var k := DotIndex(s);
    if k == |s| {
      DotIndexFirst(s);
      Field(s, st);
    } else {
      SplitAt(s);
      var f, rest := s[..k], s[k + 1..];
      assert Split(s)[0] == f && Split(s)[1..] == Split(rest);
      FieldThenDot(f, rest, st);
      if Good(f) && (st.buf.Holds? || f != []) {
        LoopByFields(rest, AfterDot(f, st));
      }
    }
  }

  /** `parseAddress` is the field reference from the start. */
  lemma ParseIsByFields(text: CString)
    ensures ParseAddress(text) == ByFields(Split(text), Start)
  {
    LoopByFields(text, Start);
  }

  // ---------------------------------------------------------------------------
  // What the fields imply

  /** The values stored are the positions `0 .. n - 1`. */
  ghost predicate Stored(ip: map<nat, nat>, n: nat) {
    forall i: nat :: i in ip <==> i < n
  }

  /** With good fields and a value to start from, every field stores one value
      and the count decides the result. */
  lemma {:induction false} CleanOutcome(fs: seq<seq<byte>>, st: State)
    requires |fs| >= 1 && AllGood(fs)
    requires st.buf.Holds? || fs[0] != []
    requires Stored(st.ip, st.octet)
    ensures ByFields(fs, st).Returned?
    ensures ByFields(fs, st).ok == (st.octet + |fs| == 4)
    ensures Stored(ByFields(fs, st).ip, st.octet + |fs|)
    decreases |fs|
  {
    if |fs| > 1 {
      var rest := fs[1..];
      assert AllGood(rest) by {
        assert forall j | 0 <= j < |rest| :: rest[j] == fs[j + 1];
      }
      CleanOutcome(rest, AfterDot(fs[0], st));
    }
  }

  /** Later fields only store at later positions. */
  lemma {:induction false} KeepsEarlier(fs: seq<seq<byte>>, st: State, k: nat)
    requires |fs| >= 1 && k < st.octet && k in st.ip
    ensures ByFields(fs, st).Returned? ==> k in ByFields(fs, st).ip && ByFields(fs, st).ip[k] == st.ip[k]
    decreases |fs|
  {
    if Good(fs[0]) && |fs| > 1 && (st.buf.Holds? || fs[0] != []) {
      KeepsEarlier(fs[1..], AfterDot(fs[0], st), k);
    }
  }

  /** Carrying from the first field on is carrying from the second on, after
      the first has been taken into account. */
  lemma {:induction false} CarriedShift(b: Buf, fs: seq<seq<byte>>, i: nat)
    requires AllGood(fs) && 1 <= i < |fs|
    ensures AllGood(fs[1..])
    ensures Carried(b, fs, i) == Carried(Carried(b, fs, 0), fs[1..], i - 1)
    decreases i
  {
    var rest := fs[1..];
    assert AllGood(rest) by {
      assert forall j | 0 <= j < |rest| :: rest[j] == fs[j + 1];
    }
    assert rest[i - 1] == fs[i];
    if fs[i] == [] && i > 1 {
      CarriedShift(b, fs, i - 1);
    }
  }

  /** With a value to start from, something is always carried. */
  lemma {:induction false} CarriedHolds(b: Buf, fs: seq<seq<byte>>, i: nat)
    requires AllGood(fs) && i < |fs| && (b.Holds? || fs[0] != [])
    ensures Carried(b, fs, i).Holds?
    decreases i
  {
    if fs[i] == [] && i > 0 {
      CarriedHolds(b, fs, i - 1);
    }
  }

  /** The value stored for field `i` is the last non-empty field up to it. */
  lemma {:induction false} CleanValue(fs: seq<seq<byte>>, st: State, i: nat)
    requires |fs| >= 1 && AllGood(fs)
    requires st.buf.Holds? || fs[0] != []
    requires Stored(st.ip, st.octet)
    requires i < |fs|
    ensures Carried(st.buf, fs, i).Holds?
    ensures ByFields(fs, st).Returned? && st.octet + i in ByFields(fs, st).ip
    ensures ByFields(fs, st).ip[st.octet + i] == Value(Carried(st.buf, fs, i).digits)
    decreases |fs|
  {
    CarriedHolds(st.buf, fs, i);
    CleanOutcome(fs, st);
    if |fs| > 1 {
      var s := AfterDot(fs[0], st);
      var rest := fs[1..];
      assert ByFields(fs, st) == ByFields(rest, s);
      if i == 0 {
        KeepsEarlier(rest, s, st.octet);
      } else {
        CarriedShift(st.buf, fs, i);
        CleanValue(rest, s, i - 1);
      }
    }
  }

  /** A field that is not good ends the parse without success. */
  lemma {:induction false} BadFieldFails(fs: seq<seq<byte>>, st: State)
    requires |fs| >= 1 && !AllGood(fs)
    ensures ByFields(fs, st) == Undefined || !ByFields(fs, st).ok
    decreases |fs|
  {
    if Good(fs[0]) {
      assert |fs| > 1;
      var rest := fs[1..];
      assert !AllGood(rest) by {
        var j :| 0 <= j < |fs| && !Good(fs[j]);
        assert j > 0 && rest[j - 1] == fs[j];
      }
      if st.buf.Holds? || fs[0] != [] {
        BadFieldFails(rest, AfterDot(fs[0], st));
      }
    }
  }

  /** An empty first field reads `buf` before anything was written into it. */
  lemma EmptyFirstField(fs: seq<seq<byte>>)
    requires |fs| >= 1 && fs[0] == []
    ensures ByFields(fs, Start) == Undefined
  {
  }

  /** `parseAddress` succeeds exactly for text of four good fields, the first
      non-empty: three dots, runs of at most three digits, nothing else. */
  lemma AcceptedIff(text: CString)
    ensures Accepted(text) <==> (var fs := Split(text); |fs| == 4 && AllGood(fs) && fs[0] != [])
  {
    var fs := Split(text);
    ParseIsByFields(text);
    if !AllGood(fs) {
      BadFieldFails(fs, Start);
    } else if fs[0] == [] {
      EmptyFirstField(fs);
    } else {
      CleanOutcome(fs, Start);
    }
  }

  /** When it succeeds, `ip[0..3]` are set and nothing else is written, and
      `ip[i]` is the value of the last non-empty field up to field `i`, at
      most 999: there is no check against 255. */
  lemma AcceptedValues(text: CString, i: nat)
    requires Accepted(text) && i < 4
    ensures |Split(text)| == 4 && AllGood(Split(text)) && Split(text)[0] != []
    ensures Stored(ParseAddress(text).ip, 4)
    ensures Carried(Unset, Split(text), i).Holds?
    ensures ParseAddress(text).ip[i] == Value(Carried(Unset, Split(text), i).digits) <= 999
  {
    AcceptedIff(text);
    ParseIsByFields(text);
    CleanOutcome(Split(text), Start);
    CleanValue(Split(text), Start, i);
  }

  /** Any byte other than a digit or a dot makes the parse fail. */
  lemma StrayByteRejected(text: CString, i: nat)
    requires i < |text| && text[i] != DOT && !IsDigit(text[i])
    ensures !Accepted(text)
  {
    AcceptedIff(text);
    var j, p := SplitCovers(text, i);
    assert !Good(Split(text)[j]);
  }

  /** So does a run of four digits. */
  lemma LongRunRejected(text: CString, i: nat)
    requires i + 4 <= |text| && AllDigits(text[i..i + 4])
    ensures !Accepted(text)
  {
    AcceptedIff(text);
    assert DigitRun(text, i) by {
      assert forall p | i <= p < i + 4 :: text[p] == text[i..i + 4][p - i];
    }
    var j := FieldHoldsRun(text, i);
    assert !Good(Split(text)[j]);
  }

  /** Every byte of the text that is not a dot lies in some field. */
  lemma {:induction false} SplitCovers(s: seq<byte>, i: nat) returns (j: nat, p: nat)
    requires i < |s| && s[i] != DOT
    ensures j < |Split(s)| && p < |Split(s)[j]| && Split(s)[j][p] == s[i]
    decreases |s|
  {
    var k := DotIndex(s);
    if k == |s| {
      j, p := 0, i;
    } else if i < k {
      assert Split(s)[0] == s[..k] by {
        SplitAt(s);
      }
      j, p := 0, i;
    } else {
      var rest := s[k + 1..];
      assert i > k && rest[i - k - 1] == s[i];
      var j', p' := SplitCovers(rest, i - k - 1);
      j, p := j' + 1, p';
      assert Split(s)[j] == Split(rest)[j'] by {
        SplitAt(s);
      }
    }
  }

  /** Four digits in a row from position `i`. */
  predicate DigitRun(s: seq<byte>, i: nat) {
    i + 4 <= |s| && forall p | i <= p < i + 4 :: IsDigit(s[p])
  }

  /** A run of four digits lies inside one field, which is then longer than 3. */
  lemma {:induction false} FieldHoldsRun(s: seq<byte>, i: nat) returns (j: nat)
    requires DigitRun(s, i)
    ensures j < |Split(s)| && |Split(s)[j]| >= 4
    decreases |s|, 1
  {
    var k := DotIndex(s);
    if k == |s| {
      j := 0;
    } else if k < i {
      j := RunInLaterField(s, i);
    } else {
      RunInFirstField(s, i);
      j := 0;
    }
  }

  /** A run after the first dot lies in a field of what follows it. */
  lemma {:induction false} RunInLaterField(s: seq<byte>, i: nat) returns (j: nat)
    requires DigitRun(s, i) && DotIndex(s) < i
    ensures j < |Split(s)| && |Split(s)[j]| >= 4
    decreases |s|, 0
  {
    var k := DotIndex(s);
    var rest := s[k + 1..];
    assert DigitRun(rest, i - k - 1) by {
      assert forall p | i - k - 1 <= p < i - k + 3 :: rest[p] == s[p + k + 1];
    }
    var j' := FieldHoldsRun(rest, i - k - 1);
    j := j' + 1;
    SplitAt(s);
  }

  /** A run that starts before the first dot ends before it too. */
  lemma RunInFirstField(s: seq<byte>, i: nat)
    requires DigitRun(s, i) && i <= DotIndex(s) < |s|
    ensures |Split(s)[0]| >= 4
  {
    SplitAt(s);
  }

  // ---------------------------------------------------------------------------
  // Rendered addresses

  /** Four fields joined with dots. */
  function Dotted(f1: seq<byte>, f2: seq<byte>, f3: seq<byte>, f4: seq<byte>): CString
    requires AllDigits(f1) && AllDigits(f2) && AllDigits(f3) && AllDigits(f4)
  {
    var t3 := Joined(f3, f4);
    var t2 := Joined(f2, t3);
    Joined(f1, t2)
  }

  /** `f.rest`, which has no NUL when neither part has one. */
  function Joined(f: seq<byte>, rest: CString): (t: CString)
    requires AllDigits(f)
    ensures t == f + [DOT] + rest
  {
    var t := f + [DOT] + rest;
    assert forall i | 0 <= i < |t| :: t[i] != 0 by {
      forall i | 0 <= i < |t| ensures t[i] != 0 {
        if i < |f| { assert t[i] == f[i]; } else if i > |f| { assert t[i] == rest[i - |f| - 1]; }
      }
    }
    t
  }

  /** `%d.%d.%d.%d` of four numbers. */
  function Render(a: nat, b: nat, c: nat, d: nat): CString {
    Dotted(DecimalString(a), DecimalString(b), DecimalString(c), DecimalString(d))
  }

  function Quad(a: nat, b: nat, c: nat, d: nat): map<nat, nat> {
    map[0 := a, 1 := b, 2 := c, 3 := d]
  }

  lemma SmallField(n: nat)
    requires n < 1000
    ensures Good(DecimalString(n)) && DecimalString(n) != [] && DOT !in DecimalString(n)
    ensures Value(DecimalString(n)) == n
  {
    DecimalStringLength(n, 3);
  }

  /** The first dot is the first byte that is a dot. */
  lemma {:induction false} DotIndexAt(s: seq<byte>, k: nat)
    requires k <= |s| && (k < |s| ==> s[k] == DOT)
    requires forall j | 0 <= j < k :: s[j] != DOT
    ensures DotIndex(s) == k
    decreases k
  {
    if k > 0 {
      DotIndexAt(s[1..], k - 1);
    }
  }

  lemma SplitField(f: seq<byte>, rest: seq<byte>)
    requires DOT !in f
    ensures Split(f + [DOT] + rest) == [f] + Split(rest)
  {
    var s := f + [DOT] + rest;
    assert forall j | 0 <= j < |f| :: s[j] == f[j];
    DotIndexAt(s, |f|);
    assert s[..|f|] == f && s[|f| + 1..] == rest;
  }

  lemma SplitLone(f: seq<byte>)
    requires DOT !in f
    ensures Split(f) == [f]
  {
    DotIndexAt(f, |f|);
  }

  /** The fields of `f1.f2.f3.f4`. */
  lemma SplitFour(f1: seq<byte>, f2: seq<byte>, f3: seq<byte>, f4: seq<byte>)
    requires AllDigits(f1) && AllDigits(f2) && AllDigits(f3) && AllDigits(f4)
    ensures Split(Dotted(f1, f2, f3, f4)) == [f1, f2, f3, f4]
  {
    NoDot(f1);
    NoDot(f2);
    NoDot(f3);
    NoDot(f4);
    var t3 := Joined(f3, f4);
    var t2 := Joined(f2, t3);
    SplitLone(f4);
    SplitField(f3, f4);
    assert Split(t3) == [f3, f4];
    SplitField(f2, t3);
    assert Split(t2) == [f2, f3, f4];
    SplitField(f1, t2);
    assert Dotted(f1, f2, f3, f4) == f1 + [DOT] + t2;
  }

  lemma NoDot(f: seq<byte>)
    requires AllDigits(f)
    ensures DOT !in f
  {
  }

  /** A clean parse of four fields, the first three non-empty, stores those
      three and whatever the fourth carries. */
  lemma FourFields(fs: seq<seq<byte>>, text: CString)
    requires |fs| == 4 && AllGood(fs) && Split(text) == fs
    requires fs[0] != [] && fs[1] != [] && fs[2] != []
    ensures Carried(Unset, fs, 3).Holds?
    ensures ParseAddress(text) == Returned(true,
      Quad(Value(fs[0]), Value(fs[1]), Value(fs[2]), Value(Carried(Unset, fs, 3).digits)))
  {
    ParseIsByFields(text);
    CleanOutcome(fs, Start);
    CleanValue(fs, Start, 0);
    CleanValue(fs, Start, 1);
    CleanValue(fs, Start, 2);
    CleanValue(fs, Start, 3);
    var r := ParseAddress(text);
    var q := Quad(Value(fs[0]), Value(fs[1]), Value(fs[2]), Value(Carried(Unset, fs, 3).digits));
    assert forall k: nat :: k in r.ip <==> k in q;
  }

  /** Four numbers below 1000 printed with dots parse back to themselves; so
      `999.1.1.1` is accepted. */
  lemma RoundTrip(a: nat, b: nat, c: nat, d: nat)
    requires a < 1000 && b < 1000 && c < 1000 && d < 1000
    ensures ParseAddress(Render(a, b, c, d)) == Returned(true, Quad(a, b, c, d))
  {
    SmallField(a);
    SmallField(b);
    SmallField(c);
    SmallField(d);
    var fs := [DecimalString(a), DecimalString(b), DecimalString(c), DecimalString(d)];
    SplitFour(fs[0], fs[1], fs[2], fs[3]);
    FourFields(fs, Render(a, b, c, d));
  }

  /** A trailing dot stores the last field twice: `a.b.c.` is accepted as
      `a.b.c.c`. */
  lemma TrailingDotRepeats(a: nat, b: nat, c: nat)
    requires a < 1000 && b < 1000 && c < 1000
    ensures ParseAddress(Dotted(DecimalString(a), DecimalString(b), DecimalString(c), []))
         == Returned(true, Quad(a, b, c, c))
  {
    SmallField(a);
    SmallField(b);
    SmallField(c);
    var fs: seq<seq<byte>> := [DecimalString(a), DecimalString(b), DecimalString(c), []];
    var text := Dotted(fs[0], fs[1], fs[2], fs[3]);
    SplitFour(fs[0], fs[1], fs[2], fs[3]);
    FourFields(fs, text);
    assert Carried(Unset, fs, 3) == Holds(fs[2]);
  }

  /** Four or more dots between good fields store a fifth value, into `ip[4]`,
      past the end of the caller's array, before returning false. */
  lemma WritesPastEnd(text: CString)
    requires var fs := Split(text); |fs| >= 5 && AllGood(fs) && fs[0] != []
    ensures ParseAddress(text).Returned? && !ParseAddress(text).ok && 4 in ParseAddress(text).ip
  {
    ParseIsByFields(text);
    CleanOutcome(Split(text), Start);
  }
}
