/**
 * The report frame on the wire, `INSULATOR_REPORT:<decimal length>|<payload>`:
 * how the sender builds it and how the receiver splits and checks it.
 */
module Framing {
  import opened Wrappers

  newtype byte = x: int | 0 <= x < 256

  const Colon: byte := 58
  const Pipe: byte := 124
  const Zero: byte := 48

  /** The bytes of an ASCII string, as `str.encode()` gives them. */
  function Ascii(s: string): (r: seq<byte>)
    requires forall i :: 0 <= i < |s| ==> s[i] as int < 128
    ensures |r| == |s| && forall i :: 0 <= i < |s| ==> r[i] as int == s[i] as int
  {
    seq(|s|, i requires 0 <= i < |s| => s[i] as int as byte)
  }

  /** `b'INSULATOR_REPORT:'`. */
  const Marker: seq<byte> := [73, 78, 83, 85, 76, 65, 84, 79, 82, 95, 82, 69, 80, 79, 82, 84, 58]

  lemma MarkerIsAscii()
    ensures Marker == Ascii("INSULATOR_REPORT:")
  {
  }

  /**
   * CPython's limit on the digits `int()` converts from text (3.11 and later,
   * and the 2022 security releases before it); leading zeros count.
   */
  const MaxStrDigits: nat := 4300

  /** `10^k`. */
  function Pow10(k: nat): (r: nat)
    ensures r >= 1
  {
    if k == 0 then 1 else 10 * Pow10(k - 1)
  }

  predicate IsDigit(b: byte)
  {
    Zero <= b <= Zero + 9
  }

  /** `str(n).encode()`: decimal digits, no sign, no leading zero. */
  function Decimal(n: nat): (r: seq<byte>)
    ensures 1 <= |r| <= 1 + n / 10
    ensures forall i :: 0 <= i < |r| ==> IsDigit(r[i])
    ensures |r| > 1 ==> r[0] != Zero
    decreases n
  {
    if n < 10 then [(Zero as int + n) as byte]
    else Decimal(n / 10) + [(Zero as int + n % 10) as byte]
  }

  /** The number written by a sequence of decimal digits, most significant first. */
  function DigitsValue(s: seq<byte>): nat
    requires forall i :: 0 <= i < |s| ==> IsDigit(s[i])
  {
    if s == [] then 0
    else
      assert IsDigit(s[|s| - 1]);
      DigitsValue(s[..|s| - 1]) * 10 + (s[|s| - 1] as int - Zero as int)
  }

  /**
   * `int(field)` restricted to plain decimal digits, at most `MaxStrDigits` of
   * them; anything else raises `ValueError`.
   */
  function ParseLength(field: seq<byte>): (r: Option<nat>)
    ensures r.Some? <==> 1 <= |field| <= MaxStrDigits && forall i :: 0 <= i < |field| ==> IsDigit(field[i])
  {
    if 1 <= |field| <= MaxStrDigits && forall i :: 0 <= i < |field| ==> IsDigit(field[i]) then Some(DigitsValue(field))
    else None
  }

  /** A number below `10^k` is written with at most `k` digits. */
  lemma {:induction false} DecimalLength(n: nat, k: nat)
    requires 1 <= k && n < Pow10(k)
    ensures |Decimal(n)| <= k
    decreases k
  {
    if n >= 10 {
      assert k >= 2;
      assert n / 10 < Pow10(k - 1);
      DecimalLength(n / 10, k - 1);
    } else {
      assert Decimal(n) == [(Zero as int + n) as byte];
    }
  }

  /** Reading back what `str(n)` wrote gives `n`, as long as `int()` takes that many digits. */
  lemma {:induction false} DecimalRoundTrip(n: nat)
    requires |Decimal(n)| <= MaxStrDigits
    ensures ParseLength(Decimal(n)) == Some(n)
    decreases n
  {
    if n >= 10 {
      DecimalRoundTrip(n / 10);
      var d := Decimal(n);
      assert d[..|d| - 1] == Decimal(n / 10);
      assert d[|d| - 1] as int == Zero as int + n % 10;
      assert DigitsValue(d) == (n / 10) * 10 + n % 10;
    } else {
      var d := Decimal(n);
      assert d == [(Zero as int + n) as byte];
      assert d[..0] == [];
      assert DigitsValue(d) == n;
    }
  }

  /** Index of the first `b` in `s`, or `|s|` when there is none. */
  function Find(s: seq<byte>, b: byte): (r: nat)
    ensures r <= |s|
    ensures r < |s| ==> s[r] == b
    ensures forall i :: 0 <= i < r ==> s[i] != b
  {
    if s == [] then 0
    else if s[0] == b then 0
    else 1 + Find(s[1..], b)
  }

  /** `m in s` for byte strings: `m` occurs somewhere in `s`. */
  predicate Contains(s: seq<byte>, m: seq<byte>)
    decreases |s|
  {
    |m| <= |s| && (s[..|m|] == m || Contains(s[1..], m))
  }

  /** The frame the sender writes: the ASCII header followed by the payload. */
  function Frame(payload: seq<byte>): seq<byte>
  {
    Marker + Decimal(|payload|) + [Pipe] + payload
  }

  /** `header.split(b':')[1]`: the bytes between the first and the second colon. */
  function LengthField(header: seq<byte>): (r: Option<seq<byte>>)
    ensures r.Some? <==> Find(header, Colon) < |header|
  {
    var c := Find(header, Colon);
    if c == |header| then None
    else
      var rest := header[c + 1..];
      Some(rest[..Find(rest, Colon)])
  }

  datatype FrameError =
    | NoMarker        // no `INSULATOR_REPORT:` anywhere: the buffer is ignored
    | NoSeparator     // no `|`: the two-name unpack raises ValueError
    | NoLengthField   // no `:` before the `|`: indexing the split raises IndexError
    | BadLength       // the length field is not a number: `int()` raises ValueError
    | LengthMismatch  // the payload is not exactly as long as declared

  /** The receiver's checks on a complete buffer, up to the payload bytes. */
  function SplitFrame(raw: seq<byte>): (r: Result<seq<byte>, FrameError>)
    ensures !Contains(raw, Marker) ==> r == Err(NoMarker)
    ensures r.Ok? ==> Find(raw, Pipe) < |raw| && r.value == raw[Find(raw, Pipe) + 1..]
    ensures r.Ok? ==> var header := raw[..Find(raw, Pipe)];
      LengthField(header).Some? && ParseLength(LengthField(header).value) == Some(|r.value|)
  {
    if !Contains(raw, Marker) then Err(NoMarker)
    else
      var p := Find(raw, Pipe);
      if p == |raw| then Err(NoSeparator)
      else
        var header, payload := raw[..p], raw[p + 1..];
        match LengthField(header)
        case None => Err(NoLengthField)
        case Some(field) =>
          match ParseLength(field)
          case None => Err(BadLength)
          case Some(length) =>
            if |payload| == length then Ok(payload) else Err(LengthMismatch)
  }

  lemma {:induction false} FindAfter(a: seq<byte>, b: seq<byte>, x: byte)
    requires forall i :: 0 <= i < |a| ==> a[i] != x
    ensures Find(a + b, x) == |a| + Find(b, x)
  {
    if a != [] {
      assert (a + b)[1..] == a[1..] + b;
      FindAfter(a[1..], b, x);
    } else {
      assert a + b == b;
    }
  }

  lemma {:induction false} FindWithin(a: seq<byte>, b: seq<byte>, x: byte)
    requires Find(a, x) < |a|
    ensures Find(a + b, x) == Find(a, x)
  {
    if a[0] != x {
      assert (a + b)[1..] == a[1..] + b;
      FindWithin(a[1..], b, x);
    }
  }

  lemma ContainsPrefix(m: seq<byte>, rest: seq<byte>)
    ensures Contains(m + rest, m)
  {
    assert (m + rest)[..|m|] == m;
  }

  /** The first `|` of a frame is the one the sender put after the length. */
  lemma FramePipe(payload: seq<byte>)
    ensures Find(Frame(payload), Pipe) == |Marker| + |Decimal(|payload|)|
  {
    var d := Decimal(|payload|);
    var head := Marker + d;
    assert Frame(payload) == head + ([Pipe] + payload);
    forall i | 0 <= i < |head| ensures head[i] != Pipe {
      if i >= |Marker| {
        assert head[i] == d[i - |Marker|];
      }
    }
    FindAfter(head, [Pipe] + payload, Pipe);
  }

  /** The marker's only colon is its last byte. */
  lemma MarkerColon()
    ensures Find(Marker, Colon) == |Marker| - 1
  {
    assert Marker[16] == Colon;
    assert forall i :: 0 <= i < 16 ==> Marker[i] != Colon;
  }

  /** The length field of the sender's header is exactly the decimal length. */
  lemma HeaderField(d: seq<byte>)
    requires forall i :: 0 <= i < |d| ==> IsDigit(d[i])
    ensures LengthField(Marker + d) == Some(d)
  {
    var head := Marker + d;
    MarkerColon();
    FindWithin(Marker, d, Colon);
    assert head[17..] == d;
    FindAfter(d, [], Colon);
    assert d + [] == d;
    assert d[..|d|] == d;
  }

  /** Where the sender's frame splits: the marker is present, and the first `|` ends the header. */
  lemma FrameParts(payload: seq<byte>)
    ensures var raw, p := Frame(payload), |Marker| + |Decimal(|payload|)|;
      Contains(raw, Marker) && Find(raw, Pipe) == p
      && raw[..p] == Marker + Decimal(|payload|) && raw[p + 1..] == payload
  {
    var d := Decimal(|payload|);
    var raw := Frame(payload);
    assert raw == Marker + (d + [Pipe] + payload);
    ContainsPrefix(Marker, d + [Pipe] + payload);
    FramePipe(payload);
  }

  /**
   * Splitting a frame built by the sender gives back exactly its payload and
   * passes the length check, whatever bytes (`|` and `:` included) the payload holds.
   */
  lemma FrameRoundTrip(payload: seq<byte>)
    requires |Decimal(|payload|)| <= MaxStrDigits
    ensures SplitFrame(Frame(payload)) == Ok(payload)
  {
    var d := Decimal(|payload|);
    FrameParts(payload);
    HeaderField(d);
    DecimalRoundTrip(|payload|);
  }

  /** A frame is at most 19 bytes plus 1.1 times its payload. */
  lemma FrameLength(payload: seq<byte>)
    ensures |Frame(payload)| <= 19 + |payload| + |payload| / 10
  {
  }
}
