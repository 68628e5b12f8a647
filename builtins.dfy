/** The few Python built-ins the protocol and proxy code rely on, stated over Dafny
    sequences: slicing with clamping, `format(n, '014b')` and `int(s, 2)`,
    `int.to_bytes(2, 'big')` and `int.from_bytes(b, 'big')`, `bin(n)` and `int(c)`,
    and the `str.split` forms the proxy uses. */
module Builtins {

  /** One element of a Python `bytes` object. */
  type Byte = b: int | 0 <= b < 256

  type Bytes = seq<Byte>

  /** The values 0 and 1 that the sources use for sequence and acknowledgement numbers. */
  type Bit = b: int | 0 <= b <= 1

  datatype Option<T> = None | Some(value: T)

  /** The exceptions the modelled code can raise and does not catch. */
  datatype Exception = OverflowError | ValueError | IndexError

  datatype Result<T> = Ok(value: T) | Err(error: Exception)

  // ---------------------------------------------------------------------------
  // Slicing

  /** `s[:n]`: Python clamps the bound to the length of `s`. */
  function Take<T>(s: seq<T>, n: nat): (r: seq<T>)
    ensures |r| == if n <= |s| then n else |s|
    ensures forall i :: 0 <= i < |r| ==> r[i] == s[i]
  {
    if n <= |s| then s[..n] else s
  }

  /** `s[n:]`: empty when `n` is past the end. */
  function Drop<T>(s: seq<T>, n: nat): (r: seq<T>)
    ensures |r| == if n <= |s| then |s| - n else 0
    ensures Take(s, n) + r == s
  {
    if n <= |s| then s[n..] else []
  }

  // ---------------------------------------------------------------------------
  // Binary numerals

  function DigitChar(b: Bit): char
  {
    if b == 0 then '0' else '1'
  }

  predicate IsBinary(s: string)
  {
    forall i :: 0 <= i < |s| ==> s[i] == '0' || s[i] == '1'
  }

  /** The shortest binary numeral of `n`, as `format(n, 'b')` writes it. */
  function Bin(n: nat): (r: string)
    ensures |r| >= 1 && IsBinary(r)
    ensures n >= 2 ==> |r| >= 2
  {
    if n < 2 then [DigitChar(n)] else Bin(n / 2) + [DigitChar(n % 2)]
  }

  function Zeros(k: nat): (r: string)
    ensures |r| == k && IsBinary(r)
    ensures forall i :: 0 <= i < k ==> r[i] == '0'
  {
    if k == 0 then [] else Zeros(k - 1) + ['0']
  }

  /** `format(n, '0<width>b')`: the binary numeral of `n`, left-padded with zeros to
      at least `width` digits (longer when `n` needs more). */
  function FormatBin(n: nat, width: nat): (r: string)
    ensures |r| >= width && IsBinary(r)
  {
    var digits := Bin(n);
    if |digits| >= width then digits else Zeros(width - |digits|) + digits
  }

  /** `int(s, 2)` on a non-empty numeral of zeros and ones. */
  function ParseBin(s: string): nat
    requires |s| >= 1 && IsBinary(s)
  {
    var last := if s[|s| - 1] == '1' then 1 else 0;
    if |s| == 1 then last else 2 * ParseBin(s[..|s| - 1]) + last
  }

  lemma ParseBinSnoc(s: string, b: Bit)
    requires |s| >= 1 && IsBinary(s)
    ensures IsBinary(s + [DigitChar(b)])
    ensures ParseBin(s + [DigitChar(b)]) == 2 * ParseBin(s) + b
  {
    assert (s + [DigitChar(b)])[..|s|] == s;
  }

  /** Reading back the numeral `format` writes gives the number. */
  lemma {:induction false} ParseBinOfBin(n: nat)
    ensures ParseBin(Bin(n)) == n
  {
    if n >= 2 {
      ParseBinOfBin(n / 2);
      ParseBinSnoc(Bin(n / 2), n % 2);
    }
  }

  lemma {:induction false} ParseBinOfZeros(k: nat)
    requires k >= 1
    ensures ParseBin(Zeros(k)) == 0
  {
    if k > 1 {
      ParseBinOfZeros(k - 1);
      ParseBinSnoc(Zeros(k - 1), 0);
    }
  }

  /** Leading zeros do not change the value `int(s, 2)` reads. */
  lemma {:induction false} ParseBinLeadingZeros(k: nat, s: string)
    requires |s| >= 1 && IsBinary(s)
    ensures IsBinary(Zeros(k) + s)
    ensures ParseBin(Zeros(k) + s) == ParseBin(s)
  {
    var t := Zeros(k) + s;
    assert forall i :: 0 <= i < |t| ==> t[i] == if i < k then Zeros(k)[i] else s[i - k];
    if k == 0 {
      assert t == s;
    } else if |s| == 1 {
      assert t == Zeros(k) + [s[0]];
      assert t[..|t| - 1] == Zeros(k);
      ParseBinOfZeros(k);
    } else {
      var init := s[..|s| - 1];
      ParseBinLeadingZeros(k, init);
      assert t[..|t| - 1] == Zeros(k) + init;
    }
  }

  /** `int(format(n, '0<width>b'), 2) == n` for every width. */
  lemma ParseFormatBin(n: nat, width: nat)
    ensures ParseBin(FormatBin(n, width)) == n
  {
    var digits := Bin(n);
    ParseBinOfBin(n);
    if |digits| < width {
      assert FormatBin(n, width) == Zeros(width - |digits|) + digits;
      ParseBinLeadingZeros(width - |digits|, digits);
    } else {
      assert FormatBin(n, width) == digits;
    }
  }

  /** The last two digits of the numeral of `n >= 2` are bits 1 and 0 of `n`. */
  lemma BinLastDigits(n: nat)
    requires n >= 2
    ensures Bin(n)[|Bin(n)| - 1] == DigitChar(n % 2)
    ensures Bin(n)[|Bin(n)| - 2] == DigitChar((n / 2) % 2)
  {
    var h := Bin(n / 2);
    assert Bin(n) == h + [DigitChar(n % 2)];
    if n / 2 >= 2 {
      BinLastDigits(n / 2);
    }
  }

  /** `bin(n)`: the numeral of `n` behind the prefix "0b". */
  function BinRepr(n: nat): (r: string)
    ensures |r| >= 3 && r[..2] == "0b" && r[2..] == Bin(n)
  {
    "0b" + Bin(n)
  }

  /** `int(c)` on a one-character string: a decimal digit, or ValueError. */
  function IntOfChar(c: char): (r: Result<nat>)
    ensures r.Ok? <==> '0' <= c <= '9'
    ensures c == '0' ==> r == Ok(0)
    ensures c == '1' ==> r == Ok(1)
  {
    if '0' <= c <= '9' then Ok(c as int - '0' as int) else Err(ValueError)
  }

  // ---------------------------------------------------------------------------
  // Integers and bytes

  /** `int.from_bytes(b, 'big')`. */
  function FromBytesBE(b: Bytes): nat
  {
    if b == [] then 0 else 256 * FromBytesBE(b[..|b| - 1]) + b[|b| - 1]
  }

  /** `n.to_bytes(2, byteorder='big')`, which raises OverflowError when `n` needs more
      than 16 bits. */
  function ToBytes2(n: nat): (r: Result<Bytes>)
    ensures r.Ok? <==> n < 0x1_0000
    ensures r.Ok? ==> |r.value| == 2 && FromBytesBE(r.value) == n
  {
    if n < 0x1_0000 then
      var r: Bytes := [n / 256, n % 256];
      assert r[..1] == [n / 256] && r[..1][..0] == [];
      assert FromBytesBE(r[..1]) == n / 256;
      Ok(r)
    else Err(OverflowError)
  }

  /** Two big-endian bytes denote a value below 2^16, and the bytes are determined by it. */
  lemma FromBytesBE2(b: Bytes)
    requires |b| == 2
    ensures FromBytesBE(b) == 256 * (b[0] as int) + b[1] < 0x1_0000
    ensures ToBytes2(FromBytesBE(b)) == Ok(b)
  {
    assert b[..1][..0] == [];
    assert FromBytesBE(b[..1]) == b[0];
    var n := 256 * (b[0] as int) + b[1];
    assert n / 256 == b[0] && n % 256 == b[1];
    assert [n / 256, n % 256] == b;
  }

  // ---------------------------------------------------------------------------
  // Searching and splitting strings

  /** `sep` occurs in `s` at index `i`. */
  predicate OccursAt<T(==)>(s: seq<T>, sep: seq<T>, i: nat)
  {
    i + |sep| <= |s| && s[i..i + |sep|] == sep
  }

  lemma OccursAtSingle<T>(s: seq<T>, c: T, j: nat)
    ensures OccursAt(s, [c], j) <==> j < |s| && s[j] == c
  {
    if j < |s| {
      assert s[j..j + 1] == [s[j]];
    }
  }

  /** The first index at or after `from` where `sep` occurs in `s`, as `str.find` reports it. */
  function FindFrom<T(==)>(s: seq<T>, sep: seq<T>, from: nat): (r: Option<nat>)
    ensures r.Some? ==> from <= r.value && OccursAt(s, sep, r.value)
    ensures r.Some? ==> forall j :: from <= j < r.value ==> !OccursAt(s, sep, j)
    ensures r.None? ==> forall j :: from <= j ==> !OccursAt(s, sep, j)
    decreases |s| - from
  {
    if from + |sep| > |s| then None
    else if s[from..from + |sep|] == sep then Some(from)
    else FindFrom(s, sep, from + 1)
  }

  function Find<T(==)>(s: seq<T>, sep: seq<T>): (r: Option<nat>)
    ensures r.Some? ==> OccursAt(s, sep, r.value) && forall j :: 0 <= j < r.value ==> !OccursAt(s, sep, j)
    ensures r.None? ==> forall j: nat :: !OccursAt(s, sep, j)
  {
    FindFrom(s, sep, 0)
  }

  /** `a, b = s.split(sep, 1)`: the text before and after the first `sep`; unpacking
      raises ValueError when `sep` does not occur. Python refuses an empty separator. */
  function SplitOnce(s: string, sep: string): (r: Result<(string, string)>)
    requires sep != []
    ensures r.Err? <==> forall j: nat :: !OccursAt(s, sep, j)
    ensures r.Err? ==> r.error == ValueError
    ensures r.Ok? ==> s == r.value.0 + sep + r.value.1
    ensures r.Ok? ==> forall j :: 0 <= j < |r.value.0| ==> !OccursAt(s, sep, j)
  {
    match Find(s, sep)
    case None => Err(ValueError)
    case Some(i) =>
      assert s == s[..i] + sep + s[i + |sep|..];
      Ok((s[..i], s[i + |sep|..]))
  }

  /** When `sep` first occurs in `s` right after `a`, `s.split(sep, 1)` is `a` and the rest. */
  lemma SplitOnceIs(s: string, sep: string, a: string, b: string)
    requires sep != []
    requires s == a + sep + b
    requires forall j :: 0 <= j < |a| ==> !OccursAt(s, sep, j)
    ensures SplitOnce(s, sep) == Ok((a, b))
  {
    assert OccursAt(s, sep, |a|) by {
      assert s[|a|..|a| + |sep|] == sep;
    }
    var r := SplitOnce(s, sep).value;
    assert |r.0| == |a|;
    assert r.0 == s[..|a|] == a;
    assert r.1 == s[|a| + |sep|..] == b;
  }

  /** `s.split(c)[0]`: the text before the first `c`, or all of `s`. */
  function FirstField(s: string, c: char): (r: string)
    ensures c !in r
    ensures r == s || (|r| < |s| && s[|r|] == c)
    ensures r <= s
  {
    match Find(s, [c])
    case None =>
      forall j | 0 <= j < |s| ensures s[j] != c { OccursAtSingle(s, c, j); }
      s
    case Some(i) =>
      OccursAtSingle(s, c, i);
      forall j | 0 <= j < i ensures s[j] != c { OccursAtSingle(s, c, j); }
      s[..i]
  }

  /** `s.startswith(prefix)`. */
  predicate StartsWith(s: string, prefix: string)
  {
    prefix <= s
  }

  /** The prefix of `s` that holds no `c` and stops at a `c` or at the end is the one
      `s.split(c)[0]` returns. */
  lemma FirstFieldIs(s: string, c: char, p: string)
    requires p <= s && c !in p
    requires |p| == |s| || s[|p|] == c
    ensures FirstField(s, c) == p
  {
  }

  /** `v` is the whole text between the first and the second `c` of `s` (or its end). */
  predicate IsSecondField(s: string, c: char, v: string)
  {
    && c !in v
    && FirstField(s, c) + [c] + v <= s
    && (var end := |FirstField(s, c)| + 1 + |v|; end == |s| || s[end] == c)
  }

  /** `s.split(c)[1]`: the text between the first and the second `c` (or the end);
      IndexError when `c` does not occur. */
  function SecondField(s: string, c: char): (r: Result<string>)
    ensures r.Err? <==> c !in s
    ensures r.Err? ==> r.error == IndexError
    ensures r.Ok? ==> IsSecondField(s, c, r.value)
  {
    match Find(s, [c])
    case None =>
      forall j | 0 <= j < |s| ensures s[j] != c { OccursAtSingle(s, c, j); }
      Err(IndexError)
    case Some(i) =>
      OccursAtSingle(s, c, i);
      var rest := s[i + 1..];
      var field := FirstField(rest, c);
      assert FirstField(s, c) == s[..i];
      assert s[..i] + [c] + field == s[..i + 1 + |field|];
      Ok(field)
  }

  /** A string of the form `w + [c] + v + rest`, with no `c` in `w` or `v` and `rest`
      empty or starting with `c`, has `v` as its second field. */
  lemma SecondFieldIs(s: string, c: char, w: string, v: string, rest: string)
    requires s == w + [c] + v + rest
    requires c !in w && c !in v
    requires rest == [] || rest[0] == c
    ensures SecondField(s, c) == Ok(v)
  {
    OccursAtSingle(s, c, |w|);
    var i := Find(s, [c]).value;
    OccursAtSingle(s, c, i);
    assert s[|w| + 1..] == v + rest;
    FirstFieldIs(v + rest, c, v);
  }
}
