/**
 * The `.npy` container (NumPy's "A Simple File Format for NumPy Arrays", format versions 1.0
 * and 2.0) as `parseNpy` in vtk.js reads it: a six-byte signature, the major and minor version
 * bytes, a little-endian header length, the header text, then the raw payload. Elements stay
 * opaque groups of bytes: four for `f4`, one for `u1`.
 */
module NpyFormat {
  import opened Base
  import opened JsText
  import opened NpyHeader

  /** A byte of the buffer. */
  newtype byte = x: int | 0 <= x < 256

  /** The signature: the byte 0x93 followed by ASCII "NUMPY". */
  const Signature: seq<byte> := [0x93, 0x4E, 0x55, 0x4D, 0x50, 0x59]

  /** The width of the header-length field: two bytes for major version 1, four otherwise. */
  function LengthFieldWidth(major: byte): nat {
    if major == 1 then 2 else 4
  }

  function Pow256(n: nat): (p: nat)
    ensures p >= 1
  {
    if n == 0 then 1 else 256 * Pow256(n - 1)
  }

  /** An unsigned little-endian integer, least significant byte first. */
  function LittleEndian(b: seq<byte>): (n: nat)
    ensures n < Pow256(|b|)
  {
    if b == [] then 0 else b[0] as nat + 256 * LittleEndian(b[1..])
  }

  /** The `w` little-endian bytes of `n`; `LittleEndian` reads them back. */
  function ToLittleEndian(n: nat, w: nat): (b: seq<byte>)
    requires n < Pow256(w)
    ensures |b| == w && LittleEndian(b) == n
  {
    if w == 0 then []
    else
      DivBelow(n, Pow256(w - 1));
      var rest := ToLittleEndian(n / 256, w - 1);
      var b := [(n % 256) as byte] + rest;
      assert b[0] as nat == n % 256 && b[1..] == rest;
      b
  }

  lemma DivBelow(n: nat, p: nat)
    requires n < 256 * p
    ensures n / 256 < p && n == n % 256 + 256 * (n / 256)
  {
  }

  /** Reading `b[o..e]` little-endian: its first byte plus 256 times the rest. */
  lemma LittleEndianStep(b: seq<byte>, o: nat, e: nat)
    requires o < e <= |b|
    ensures LittleEndian(b[o..e]) == b[o] as nat + 256 * LittleEndian(b[o + 1..e])
  {
    assert b[o..e][1..] == b[o + 1..e];
  }

  /** `DataView.getUint16(o, true)`. */
  function GetUint16(b: seq<byte>, o: nat): (n: nat)
    requires o + 2 <= |b|
    ensures n == LittleEndian(b[o..o + 2])
  {
    LittleEndianStep(b, o, o + 2);
    LittleEndianStep(b, o + 1, o + 2);
    assert b[o + 2..o + 2] == [];
    b[o] as nat + 256 * b[o + 1] as nat
  }

  /** `DataView.getUint32(o, true)`. */
  function GetUint32(b: seq<byte>, o: nat): (n: nat)
    requires o + 4 <= |b|
    ensures n == LittleEndian(b[o..o + 4])
  {
    LittleEndianStep(b, o, o + 4);
    LittleEndianStep(b, o + 1, o + 4);
    LittleEndianStep(b, o + 2, o + 4);
    LittleEndianStep(b, o + 3, o + 4);
    assert b[o + 4..o + 4] == [];
    b[o] as nat + 256 * (b[o + 1] as nat + 256 * (b[o + 2] as nat + 256 * b[o + 3] as nat))
  }

  /**
   * Bytes as text, one character per byte whose code is the byte value: `String.fromCharCode` on
   * each byte, and the UTF-8 decoding of the header for ASCII bytes.
   */
  function AsciiText(b: seq<byte>): (s: string)
    ensures |s| == |b|
  {
    seq(|b|, i requires 0 <= i < |b| => b[i] as int as char)
  }

  /** The bytes of an ASCII (or Latin-1) text; `AsciiText` reads them back. */
  function AsciiBytes(s: string): (b: seq<byte>)
    requires forall i :: 0 <= i < |s| ==> s[i] as int < 256
    ensures |b| == |s| && AsciiText(b) == s
  {
    var b := seq(|s|, i requires 0 <= i < |s| => s[i] as int as byte);
    assert forall i :: 0 <= i < |s| ==> AsciiText(b)[i] == s[i];
    b
  }

  /** The two element types `parseNpy` builds a typed array for. */
  datatype DType = Float32 | UInt8

  /** `Float32Array.BYTES_PER_ELEMENT` and `Uint8Array.BYTES_PER_ELEMENT`. */
  function ElementWidth(t: DType): nat {
    match t
    case Float32 => 4
    case UInt8 => 1
  }

  /** `descr.slice(-2)`: the last two characters, or the whole text when it is shorter. */
  function Suffix(descr: string): (r: string)
    ensures |r| == if |descr| >= 2 then 2 else |descr|
    ensures r == descr[|descr| - |r|..]
  {
    if |descr| >= 2 then descr[|descr| - 2..] else descr
  }

  /** The dtype dispatch on the suffix; nothing but `f4` and `u1` is accepted. */
  function DTypeOf(descr: string): (r: Option<DType>)
    ensures r == Some(Float32) <==> |descr| >= 2 && descr[|descr| - 2] == 'f' && descr[|descr| - 1] == '4'
    ensures r == Some(UInt8) <==> |descr| >= 2 && descr[|descr| - 2] == 'u' && descr[|descr| - 1] == '1'
  {
    if Suffix(descr) == "f4" then Some(Float32)
    else if Suffix(descr) == "u1" then Some(UInt8)
    else None
  }

  /** `shape.reduce((a, b) => a * b)` for a non-empty shape. */
  function Product(shape: seq<int>): (p: int)
    ensures (exists i :: 0 <= i < |shape| && shape[i] == 0) ==> p == 0
    ensures (forall i :: 0 <= i < |shape| ==> shape[i] >= 0) ==> p >= 0
  {
    if |shape| == 0 then 1
    else
      var init := shape[..|shape| - 1];
      var last := shape[|shape| - 1];
      var q := Product(init);
      assert forall i :: 0 <= i < |init| ==> init[i] == shape[i];
      assert (forall i :: 0 <= i < |shape| ==> shape[i] >= 0) ==> q * last >= 0 by {
        if forall i :: 0 <= i < |shape| ==> shape[i] >= 0 {
          assert q >= 0 && last >= 0;
        }
      }
      q * last
  }

  /** The fold over a concatenation is the product of the folds of its two parts. */
  lemma {:induction false} ProductConcat(a: seq<int>, b: seq<int>)
    ensures Product(a + b) == Product(a) * Product(b)
    decreases |b|
  {
    if b == [] {
      assert a + b == a;
    } else {
      var init := b[..|b| - 1];
      var last := b[|b| - 1];
      assert (a + b)[..|a + b| - 1] == a + init && (a + b)[|a + b| - 1] == last;
      ProductConcat(a, init);
      var pa, pi := Product(a), Product(init);
      assert Product(a + b) == pa * pi * last;
      assert Product(b) == pi * last;
      MulAssoc(pa, pi, last);
    }
  }

  /** The decoded array: what `parseNpy` returns, with the typed view's class as `dtype`. */
  datatype NpyArray = NpyArray(shape: seq<int>, descr: string, dtype: DType, elements: seq<seq<byte>>)

  /** Every way `parseNpy` can throw, in the order it can meet them. */
  datatype DecodeError =
    | Truncated(needed: nat)                   // a read at a fixed place runs past the buffer (RangeError)
    | BadSignature                             // "Not a .npy file"
    | MissingDescr                             // the descr lookup finds nothing (TypeError on null[1])
    | MissingShape                             // the shape lookup finds nothing (TypeError on null[1])
    | EmptyShape                               // reduce of an empty array without a seed (TypeError)
    | Misaligned(offset: nat)                  // a Float32Array at an offset not a multiple of 4 (RangeError)
    | NegativeCount(count: int)                // a typed-array length below zero (RangeError)
    | CountTooLarge(count: int)                // a typed-array length above 2^53 - 1 (RangeError)
    | ShortPayload(needed: nat, available: nat) // a typed array reaching past the buffer (RangeError)
    | UnsupportedDtype(descr: string)          // "Unsupported dtype: " + descr

  lemma MulAssoc(x: int, y: int, z: int)
    ensures x * y * z == x * (y * z)
  {
  }

  /** The concatenation of the element byte groups. */
  function Flatten(groups: seq<seq<byte>>): (b: seq<byte>) {
    if groups == [] then [] else groups[0] + Flatten(groups[1..])
  }

  lemma {:induction false} FlattenLength(groups: seq<seq<byte>>, w: nat)
    requires forall i :: 0 <= i < |groups| ==> |groups[i]| == w
    ensures |Flatten(groups)| == |groups| * w
  {
    if groups != [] {
      FlattenLength(groups[1..], w);
    }
  }

  /** `n` consecutive groups of `w` bytes. */
  function Group(b: seq<byte>, w: nat, n: nat): (r: seq<seq<byte>>)
    requires |b| == n * w
    ensures |r| == n && forall i :: 0 <= i < n ==> |r[i]| == w
    ensures Flatten(r) == b
  {
    if n == 0 then []
    else
      assert |b[w..]| == (n - 1) * w;
      var r := [b[..w]] + Group(b[w..], w, n - 1);
      assert r[1..] == Group(b[w..], w, n - 1);
      r
  }

  /** Grouping the concatenation of equal-width groups gives the groups back. */
  lemma {:induction false} GroupFlatten(groups: seq<seq<byte>>, w: nat)
    requires forall i :: 0 <= i < |groups| ==> |groups[i]| == w
    ensures |Flatten(groups)| == |groups| * w
    ensures Group(Flatten(groups), w, |groups|) == groups
  {
    FlattenLength(groups, w);
    if groups != [] {
      GroupFlatten(groups[1..], w);
      var f := Flatten(groups);
      assert f[..w] == groups[0] && f[w..] == Flatten(groups[1..]);
    }
  }

  /** The largest length ECMAScript's `ToIndex` accepts: 2^53 - 1. */
  const MaxSafeInteger: nat := 0x1F_FFFF_FFFF_FFFF

  /**
   * `new Float32Array(buffer, offset, count)` or `new Uint8Array(buffer, offset, count)`: the
   * offset must be a multiple of the element width, the count an index (not negative and at most
   * 2^53 - 1), and the `count` elements must lie inside the buffer.
   */
  function View(b: seq<byte>, offset: nat, count: int, t: DType): (r: Result<seq<seq<byte>>, DecodeError>)
    requires offset <= |b|
    ensures r.Ok? <==>
              offset % ElementWidth(t) == 0 && 0 <= count <= MaxSafeInteger && offset + count * ElementWidth(t) <= |b|
    ensures offset % ElementWidth(t) != 0 ==> r == Err(Misaligned(offset))
    ensures offset % ElementWidth(t) == 0 && count < 0 ==> r == Err(NegativeCount(count))
    ensures offset % ElementWidth(t) == 0 && count > MaxSafeInteger ==> r == Err(CountTooLarge(count))
    ensures offset % ElementWidth(t) == 0 && 0 <= count <= MaxSafeInteger && offset + count * ElementWidth(t) > |b| ==>
              r == Err(ShortPayload(count * ElementWidth(t), |b| - offset))
  {
    var w := ElementWidth(t);
    if offset % w != 0 then Err(Misaligned(offset))
    else if count < 0 then Err(NegativeCount(count))
    else if count > MaxSafeInteger then Err(CountTooLarge(count))
    else if offset + count * w > |b| then Err(ShortPayload(count * w, |b| - offset))
    else Ok(Group(b[offset..offset + count * w], w, count))
  }

  /** Where the payload starts: after the eight prefix bytes, the length field and the header. */
  function PayloadOffset(b: seq<byte>): nat
    requires |b| >= 8 && |b| >= 8 + LengthFieldWidth(b[6])
  {
    8 + LengthFieldWidth(b[6]) + LittleEndian(b[8..8 + LengthFieldWidth(b[6])])
  }

  /** Everything after the header has been framed: field lookups, dtype dispatch and the view. */
  function DecodeBody(b: seq<byte>, offset: nat, header: string): (r: Result<NpyArray, DecodeError>)
    requires offset <= |b|
    ensures Search(header, DescrPattern, 0).None? ==> r == Err(MissingDescr)
    ensures Search(header, DescrPattern, 0).Some? && Search(header, ShapePattern, 0).None? ==> r == Err(MissingShape)
    ensures (Search(header, DescrPattern, 0).Some? && Search(header, ShapePattern, 0).Some? &&
             ParseShape(Search(header, ShapePattern, 0).value) == []) ==>
              r == Err(EmptyShape)
    ensures (Search(header, DescrPattern, 0).Some? && Search(header, ShapePattern, 0).Some? &&
             ParseShape(Search(header, ShapePattern, 0).value) != [] &&
             DTypeOf(Search(header, DescrPattern, 0).value).None?) ==>
              r == Err(UnsupportedDtype(Search(header, DescrPattern, 0).value))
  {
    match Search(header, DescrPattern, 0)
    case None => Err(MissingDescr)
    case Some(descr) =>
      match Search(header, ShapePattern, 0)
      case None => Err(MissingShape)
      case Some(capture) =>
        var shape := ParseShape(capture);
        if shape == [] then Err(EmptyShape)
        else
          match DTypeOf(descr)
          case None => Err(UnsupportedDtype(descr))
          case Some(t) =>
            match View(b, offset, Product(shape), t)
            case Err(e) => Err(e)
            case Ok(elements) => Ok(NpyArray(shape, descr, t, elements))
  }

  /** What `parseNpy` computes from a whole buffer. */
  function Decode(b: seq<byte>): (r: Result<NpyArray, DecodeError>)
    ensures |b| < 6 ==> r == Err(Truncated(6))
    ensures |b| >= 6 && b[..6] != Signature ==> r == Err(BadSignature)
    ensures |b| >= 6 && b[..6] == Signature && |b| < 8 ==> r == Err(Truncated(|b| + 1))
  {
    if |b| < 6 then Err(Truncated(6))
    else if b[..6] != Signature then Err(BadSignature)
    else if |b| < 7 then Err(Truncated(7))
    else if |b| < 8 then Err(Truncated(8))
    else
      var w := LengthFieldWidth(b[6]);
      if |b| < 8 + w then Err(Truncated(8 + w))
      else
        var offset := PayloadOffset(b);
        if |b| < offset then Err(Truncated(offset))
        else DecodeBody(b, offset, AsciiText(b[8 + w..offset]))
  }

  /**
   * A header that yields an array names a supported dtype and a shape that is not empty, and the
   * array carries the two captures of that header, in whatever order and spacing they appear.
   */
  lemma BodySucceeds(b: seq<byte>, offset: nat, header: string)
    requires offset <= |b| && DecodeBody(b, offset, header).Ok?
    ensures Search(header, DescrPattern, 0).Some? && Search(header, ShapePattern, 0).Some?
    ensures var p := DecodeBody(b, offset, header).value;
            p.descr == Search(header, DescrPattern, 0).value &&
            p.shape == ParseShape(Search(header, ShapePattern, 0).value)
    ensures var p := DecodeBody(b, offset, header).value;
            |p.shape| >= 1 && DTypeOf(p.descr) == Some(p.dtype) &&
            View(b, offset, Product(p.shape), p.dtype) == Ok(p.elements)
  {
    var descr := Search(header, DescrPattern, 0).value;
    var shape := ParseShape(Search(header, ShapePattern, 0).value);
    var t := DTypeOf(descr).value;
    var v := View(b, offset, Product(shape), t);
    assert DecodeBody(b, offset, header) == Ok(NpyArray(shape, descr, t, v.value));
  }

  /**
   * Once both lookups succeed, the shape is not empty and the descr is supported, the body step
   * returns the captured shape and descr with the view's elements, or fails with the view's error,
   * whatever header it is given.
   */
  lemma BodyIsView(b: seq<byte>, offset: nat, header: string)
    requires offset <= |b|
    requires Search(header, DescrPattern, 0).Some? && Search(header, ShapePattern, 0).Some?
    requires ParseShape(Search(header, ShapePattern, 0).value) != []
    requires DTypeOf(Search(header, DescrPattern, 0).value).Some?
    ensures var descr := Search(header, DescrPattern, 0).value;
            var shape := ParseShape(Search(header, ShapePattern, 0).value);
            var t := DTypeOf(descr).value;
            var v := View(b, offset, Product(shape), t);
            DecodeBody(b, offset, header) == if v.Ok? then Ok(NpyArray(shape, descr, t, v.value)) else Err(v.error)
  {
  }

  /**
   * A buffer that decodes starts with the signature, is long enough for the length field and the
   * header it announces, and its array is the view, at the end of that header, of as many
   * elements as the shape's product.
   */
  lemma DecodeSucceeds(b: seq<byte>)
    requires Decode(b).Ok?
    ensures |b| >= 8 && |b| >= 8 + LengthFieldWidth(b[6]) && b[..6] == Signature && PayloadOffset(b) <= |b|
    ensures var header := AsciiText(b[8 + LengthFieldWidth(b[6])..PayloadOffset(b)]);
            var p := Decode(b).value;
            Search(header, DescrPattern, 0).Some? && Search(header, ShapePattern, 0).Some? &&
            p.descr == Search(header, DescrPattern, 0).value &&
            p.shape == ParseShape(Search(header, ShapePattern, 0).value)
    ensures var p := Decode(b).value;
            |p.shape| >= 1 && DTypeOf(p.descr) == Some(p.dtype) &&
            View(b, PayloadOffset(b), Product(p.shape), p.dtype) == Ok(p.elements)
  {
    DecodeFrames(b);
    var w := LengthFieldWidth(b[6]);
    var offset := PayloadOffset(b);
    BodySucceeds(b, offset, AsciiText(b[8 + w..offset]));
  }

  /**
   * Once the signature, the version, the length field and the announced header are all in the
   * buffer, the result is the body step's on that header, success or failure.
   */
  lemma DecodeIsBody(b: seq<byte>)
    requires |b| >= 8 && b[..6] == Signature && |b| >= 8 + LengthFieldWidth(b[6]) && PayloadOffset(b) <= |b|
    ensures Decode(b) == DecodeBody(b, PayloadOffset(b), AsciiText(b[8 + LengthFieldWidth(b[6])..PayloadOffset(b)]))
  {
  }

  /** A buffer that decodes is framed by its prelude, and the body step decides the result. */
  lemma DecodeFrames(b: seq<byte>)
    requires Decode(b).Ok?
    ensures |b| >= 8 && |b| >= 8 + LengthFieldWidth(b[6]) && b[..6] == Signature && PayloadOffset(b) <= |b|
    ensures Decode(b) == DecodeBody(b, PayloadOffset(b), AsciiText(b[8 + LengthFieldWidth(b[6])..PayloadOffset(b)]))
  {
  }

  /** What a successful view holds: `count` groups of the element width, the bytes at `offset`. */
  lemma ViewContents(b: seq<byte>, offset: nat, count: int, t: DType, e: seq<seq<byte>>)
    requires offset <= |b| && View(b, offset, count, t) == Ok(e)
    ensures |e| == count && forall i :: 0 <= i < |e| ==> |e[i]| == ElementWidth(t)
    ensures |Flatten(e)| == |e| * ElementWidth(t)
    ensures offset + |Flatten(e)| <= |b| && Flatten(e) == b[offset..offset + |Flatten(e)|]
  {
    var w := ElementWidth(t);
    var s := b[offset..offset + count * w];
    assert e == Group(s, w, count);
    FlattenLength(e, w);
  }

  /**
   * The header length is two little-endian bytes after major version 1 and four after any other,
   * and the payload starts right after the header it announces; a buffer too short for either
   * read fails there.
   */
  lemma HeaderLengthField(b: seq<byte>)
    requires |b| >= 8 && b[..6] == Signature
    ensures b[6] == 1 && |b| < 10 ==> Decode(b) == Err(Truncated(10))
    ensures b[6] != 1 && |b| < 12 ==> Decode(b) == Err(Truncated(12))
    ensures b[6] == 1 && |b| >= 10 ==> PayloadOffset(b) == 10 + b[8] as nat + 256 * b[9] as nat
    ensures b[6] != 1 && |b| >= 12 ==>
              PayloadOffset(b) ==
                12 + b[8] as nat + 256 * b[9] as nat + 65536 * b[10] as nat + 16777216 * b[11] as nat
    ensures |b| >= 8 + LengthFieldWidth(b[6]) && |b| < PayloadOffset(b) ==>
              Decode(b) == Err(Truncated(PayloadOffset(b)))
  {
    if b[6] == 1 && |b| >= 10 {
      assert GetUint16(b, 8) == LittleEndian(b[8..10]);
    }
    if b[6] != 1 && |b| >= 12 {
      assert GetUint32(b, 8) == LittleEndian(b[8..12]);
    }
  }

  /**
   * The dtype is read off the last two characters of the descr alone: whatever byte-order mark
   * precedes `f4` or `u1`, or none, the dtype is the same.
   */
  lemma DescrSuffixDispatch(mark: char)
    ensures DTypeOf([mark, 'f', '4']) == Some(Float32) && DTypeOf("f4") == Some(Float32)
    ensures DTypeOf([mark, 'u', '1']) == Some(UInt8) && DTypeOf("u1") == Some(UInt8)
  {
    assert Suffix([mark, 'f', '4']) == "f4";
    assert Suffix([mark, 'u', '1']) == "u1";
  }

  /** An item size other than 4 for floats or 1 for unsigned bytes, or another kind, is refused. */
  lemma OtherDescrsRefused()
    ensures DTypeOf("<f8") == None && DTypeOf("<i4") == None && DTypeOf("4") == None && DTypeOf("") == None
  {
  }

  /**
   * `parseNpy` step by step: a byte cursor starts after the signature, passes the two version
   * bytes, the length field of the width the major version selects and the header, and ends
   * where the payload starts.
   */
  method ParseNpy(buffer: seq<byte>) returns (r: Result<NpyArray, DecodeError>)
    ensures r == Decode(buffer)
  {
    if |buffer| < 6 {
      return Err(Truncated(6));
    }
    if buffer[..6] != Signature {
      return Err(BadSignature);
    }
    var offset: nat := 6;
    if |buffer| < offset + 1 {
      return Err(Truncated(offset + 1));
    }
    var major := buffer[offset];
    offset := offset + 1;
    if |buffer| < offset + 1 {
      return Err(Truncated(offset + 1));
    }
    var minor := buffer[offset];
    offset := offset + 1;
    var width := if major == 1 then 2 else 4;
    if |buffer| < offset + width {
      return Err(Truncated(offset + width));
    }
    var headerLen := if major == 1 then GetUint16(buffer, offset) else GetUint32(buffer, offset);
    offset := offset + width;
    assert offset == 8 + LengthFieldWidth(buffer[6]) && headerLen == LittleEndian(buffer[8..offset]);
    if |buffer| < offset + headerLen {
      return Err(Truncated(offset + headerLen));
    }
    var header := AsciiText(buffer[offset..offset + headerLen]);
    offset := offset + headerLen;
    assert offset == PayloadOffset(buffer);

    var descr := Search(header, DescrPattern, 0);
    if descr.None? {
      return Err(MissingDescr);
    }
    var capture := Search(header, ShapePattern, 0);
    if capture.None? {
      return Err(MissingShape);
    }
    var shape := ParseShape(capture.value);
    if shape == [] {
      return Err(EmptyShape);
    }
    var count := Product(shape);
    var t: DType;
    if Suffix(descr.value) == "f4" {
      t := Float32;
    } else if Suffix(descr.value) == "u1" {
      t := UInt8;
    } else {
      return Err(UnsupportedDtype(descr.value));
    }
    var typed := View(buffer, offset, count, t);
    if typed.Err? {
      return Err(typed.error);
    }
    r := Ok(NpyArray(shape, descr.value, t, typed.value));
  }

  // ---------------------------------------------------------------------------------------
  // The writer side: the file NumPy's `save` produces for a C-ordered array.

  /** NumPy's descr for each dtype: little-endian float32, and the single byte, which has no order. */
  function Descr(t: DType): (d: string)
    ensures d == "<f4" || d == "|u1"
  {
    match t
    case Float32 => "<f4"
    case UInt8 => "|u1"
  }

  /** The reader recognises the descr NumPy writes for each dtype. */
  lemma DescrRoundTrip(t: DType)
    ensures DTypeOf(Descr(t)) == Some(t)
  {
  }

  function Spaces(n: nat): (s: string)
    ensures |s| == n && forall i :: 0 <= i < n ==> s[i] == ' '
  {
    if n == 0 then [] else [' '] + Spaces(n - 1)
  }

  /**
   * The header NumPy writes after a length field of `w` bytes: the dictionary, `spare` blanks, then
   * blanks and a newline so that the payload starts at a multiple of 64 bytes (a whole line of 64
   * blanks when the text already ends there). Older releases write no spare blanks; current
   * `_write_array_header` writes `GrowthSpare(shape)` of them, room for the first axis to grow in
   * place.
   */
  function HeaderFor(t: DType, shape: seq<nat>, spare: nat, w: nat): (h: string)
    ensures (8 + w + |h|) % 64 == 0
  {
    Framed(DictText(Descr(t), shape) + Spaces(spare), 8 + w)
  }

  /** NumPy's `GROWTH_AXIS_MAX_DIGITS`: the digits a growing first axis may reach. */
  const GrowthAxisMaxDigits := 21

  /**
   * The spare blanks current NumPy writes after the dictionary of a C-ordered array: 21 less the
   * digits of the first axis, and none for a zero-dimensional array. A first axis of 21 digits or
   * more also gets none, since Python repeats a string a negative number of times as the empty
   * string.
   */
  function GrowthSpare(shape: seq<nat>): nat {
    if shape == [] || |Decimal(shape[0])| >= GrowthAxisMaxDigits then 0
    else GrowthAxisMaxDigits - |Decimal(shape[0])|
  }

  /** `text`, placed at byte `n`, followed by the padding that ends it at a multiple of 64. */
  function Framed(text: string, n: nat): (h: string)
    ensures (n + |h|) % 64 == 0
  {
    text + Padding(n + |text|)
  }

  /** The blanks and the newline that end a header whose dictionary ends at byte `n`. */
  function Padding(n: nat): (pad: string)
    ensures (n + |pad|) % 64 == 0 && |pad| >= 1 && pad[|pad| - 1] == '\n'
    ensures |pad| <= 65
    ensures forall i :: 0 <= i < |pad| - 1 ==> pad[i] == ' '
  {
    Spaces(64 - (n + 1) % 64) + "\n"
  }

  /** The header is ASCII and holds no backslash. */
  lemma HeaderPlain(t: DType, shape: seq<nat>, spare: nat, w: nat)
    ensures forall i :: 0 <= i < |HeaderFor(t, shape, spare, w)| ==>
      HeaderFor(t, shape, spare, w)[i] as int < 128 && HeaderFor(t, shape, spare, w)[i] != '\\'
  {
    var dict := DictText(Descr(t), shape);
    DictTextPlain(Descr(t), shape);
    var text := dict + Spaces(spare);
    var h := HeaderFor(t, shape, spare, w);
    forall i | 0 <= i < |h| ensures h[i] as int < 128 && h[i] != '\\' {
      if i < |dict| {
        assert h[i] == dict[i];
      } else if i < |text| {
        assert h[i] == Spaces(spare)[i - |dict|];
      }
    }
  }

  /** The header length has to fit in the length field the major version selects. */
  predicate HeaderFits(major: byte, t: DType, shape: seq<nat>, spare: nat) {
    |HeaderFor(t, shape, spare, LengthFieldWidth(major))| < Pow256(LengthFieldWidth(major))
  }

  /**
   * Signature, version `major`.0, header length and header: all that precedes the payload. A file
   * NumPy writes is this prelude followed by the bytes of its elements in order.
   */
  function Prelude(major: byte, t: DType, shape: seq<nat>, spare: nat): (b: seq<byte>)
    requires HeaderFits(major, t, shape, spare)
    ensures |b| == 8 + LengthFieldWidth(major) + |HeaderFor(t, shape, spare, LengthFieldWidth(major))|
  {
    var w := LengthFieldWidth(major);
    HeaderPlain(t, shape, spare, w);
    Framing(major, w, HeaderFor(t, shape, spare, w))
  }

  /** Signature, version `major`.0, the length of `header` in a `w`-byte field, and `header`. */
  function Framing(major: byte, w: nat, header: string): (b: seq<byte>)
    requires |header| < Pow256(w) && forall i :: 0 <= i < |header| ==> header[i] as int < 128
    ensures |b| == 8 + w + |header|
  {
    Signature + [major, 0] + ToLittleEndian(|header|, w) + AsciiBytes(header)
  }

  /** The fields the reader frames in a buffer that starts with a prelude. */
  lemma PreludeFields(major: byte, t: DType, shape: seq<nat>, spare: nat, rest: seq<byte>)
    requires HeaderFits(major, t, shape, spare)
    ensures var b := Prelude(major, t, shape, spare) + rest;
            var w := LengthFieldWidth(major);
            |b| >= 8 + w && b[..6] == Signature && b[6] == major &&
            LittleEndian(b[8..8 + w]) == |HeaderFor(t, shape, spare, w)| &&
            PayloadOffset(b) == |Prelude(major, t, shape, spare)| &&
            AsciiText(b[8 + w..PayloadOffset(b)]) == HeaderFor(t, shape, spare, w)
  {
    var w := LengthFieldWidth(major);
    var header := HeaderFor(t, shape, spare, w);
    HeaderPlain(t, shape, spare, w);
    var len := ToLittleEndian(|header|, w);
    var text := AsciiBytes(header);
    assert Prelude(major, t, shape, spare) == Signature + [major, 0] + len + text;
    PreludeSlices(Signature, [major, 0], len, text, rest);
  }

  /** Where the parts of a prelude sit in a buffer that starts with it. */
  lemma PreludeSlices(sig: seq<byte>, version: seq<byte>, len: seq<byte>, text: seq<byte>, rest: seq<byte>)
    requires |sig| == 6 && |version| == 2
    ensures var b := sig + version + len + text + rest;
            var n := 8 + |len|;
            b == (sig + version + len + text) + rest &&
            b[..6] == sig && b[6] == version[0] && b[8..n] == len && b[n..n + |text|] == text
  {
    var b := sig + version + len + text + rest;
    assert b[..6] == sig;
    assert b[8..8 + |len|] == len;
    assert b[8 + |len|..8 + |len| + |text|] == text;
  }

  /** After a prelude the reader finds the dtype and the shape it announces and reads the view. */
  lemma DecodeAfterPrelude(major: byte, t: DType, shape: seq<nat>, spare: nat, rest: seq<byte>)
    requires HeaderFits(major, t, shape, spare)
    ensures shape == [] ==> Decode(Prelude(major, t, shape, spare) + rest) == Err(EmptyShape)
    ensures shape != [] ==>
              var b := Prelude(major, t, shape, spare) + rest;
              var v := View(b, |Prelude(major, t, shape, spare)|, Product(shape), t);
              Decode(b) == if v.Ok? then Ok(NpyArray(shape, Descr(t), t, v.value)) else Err(v.error)
  {
    var b := Prelude(major, t, shape, spare) + rest;
    var w := LengthFieldWidth(major);
    DecodeFramesPrelude(major, t, shape, spare, rest);
    HeaderBody(b, |Prelude(major, t, shape, spare)|, t, shape, spare, w);
  }

  /** The reader hands the header and the payload offset a prelude announces to the body step. */
  lemma DecodeFramesPrelude(major: byte, t: DType, shape: seq<nat>, spare: nat, rest: seq<byte>)
    requires HeaderFits(major, t, shape, spare)
    ensures var b := Prelude(major, t, shape, spare) + rest;
            |Prelude(major, t, shape, spare)| <= |b| &&
            Decode(b) == DecodeBody(b, |Prelude(major, t, shape, spare)|, HeaderFor(t, shape, spare, LengthFieldWidth(major)))
  {
    PreludeFields(major, t, shape, spare, rest);
  }

  /** The body step on a header NumPy wrote. */
  lemma HeaderBody(b: seq<byte>, offset: nat, t: DType, shape: seq<nat>, spare: nat, w: nat)
    requires offset <= |b|
    ensures shape == [] ==> DecodeBody(b, offset, HeaderFor(t, shape, spare, w)) == Err(EmptyShape)
    ensures shape != [] ==>
              var v := View(b, offset, Product(shape), t);
              DecodeBody(b, offset, HeaderFor(t, shape, spare, w)) ==
                if v.Ok? then Ok(NpyArray(shape, Descr(t), t, v.value)) else Err(v.error)
  {
    HeaderLookups(t, shape, spare, w);
    DescrRoundTrip(t);
    if shape != [] {
      ParseTupleBody(shape);
    } else {
      assert TupleBody(shape) == "";
      ShapeOfNoAxis();
    }
  }

  /** In the header NumPy writes, the intended lookups find the descr and the printed shape. */
  lemma HeaderLookups(t: DType, shape: seq<nat>, spare: nat, w: nat)
    ensures Search(HeaderFor(t, shape, spare, w), DescrPattern, 0) == Some(Descr(t))
    ensures Search(HeaderFor(t, shape, spare, w), ShapePattern, 0) == Some(TupleBody(shape))
  {
    var dict := DictText(Descr(t), shape);
    var pad := FramedSplits(dict + Spaces(spare), 8 + w);
    assert HeaderFor(t, shape, spare, w) == dict + (Spaces(spare) + pad);
    LookupsFindNumpyFields(Descr(t), shape, Spaces(spare) + pad, HeaderFor(t, shape, spare, w));
  }

  /** A framed text is the text followed by some padding. */
  lemma FramedSplits(text: string, n: nat) returns (pad: string)
    ensures Framed(text, n) == text + pad
  {
    pad := Padding(n + |text|);
  }

  /** A view over bytes that are the concatenation of equal-width groups yields those groups. */
  lemma ViewOfGroups(b: seq<byte>, offset: nat, t: DType, groups: seq<seq<byte>>)
    requires offset <= |b| && offset % ElementWidth(t) == 0 && |groups| <= MaxSafeInteger
    requires forall i :: 0 <= i < |groups| ==> |groups[i]| == ElementWidth(t)
    requires offset + |Flatten(groups)| <= |b| && b[offset..offset + |Flatten(groups)|] == Flatten(groups)
    ensures View(b, offset, |groups|, t) == Ok(groups)
  {
    GroupFlatten(groups, ElementWidth(t));
    ViewCovers(b, offset, |groups|, t, Flatten(groups));
  }

  /** A view over the bytes `s` groups `s`. */
  lemma ViewCovers(b: seq<byte>, offset: nat, count: nat, t: DType, s: seq<byte>)
    requires offset % ElementWidth(t) == 0 && count <= MaxSafeInteger && |s| == count * ElementWidth(t)
    requires offset + |s| <= |b| && b[offset..offset + |s|] == s
    ensures View(b, offset, count, t) == Ok(Group(s, ElementWidth(t), count))
  {
    ViewIsGroup(b, offset, count, t);
  }

  /** A view that succeeds groups the bytes it covers. */
  lemma ViewIsGroup(b: seq<byte>, offset: nat, count: nat, t: DType)
    requires offset <= |b| && offset % ElementWidth(t) == 0 && count <= MaxSafeInteger
    requires offset + count * ElementWidth(t) <= |b|
    ensures View(b, offset, count, t) ==
            Ok(Group(b[offset..offset + count * ElementWidth(t)], ElementWidth(t), count))
  {
  }

  /**
   * The header NumPy writes for a float32 array of shape (2, 2) fits a version 1 length field,
   * with any number of spare blanks a writer adds for the first axis.
   */
  lemma SmallHeaderFits(spare: nat)
    requires spare <= GrowthAxisMaxDigits
    ensures HeaderFits(1, Float32, [2, 2], spare)
  {
    assert Decimal(2) == "2";
    var items := TupleItems([2, 2]);
    assert |items[0]| == 1 && |items[1]| == 2;
    assert JoinComma(items[1..]) == items[1];
    assert |JoinComma(items)| == 4;
    assert |ShapeEntry([2, 2])| == 18;
    QuoteSFreePrefix("<f4");
    var text := DictText("<f4", [2, 2]);
    assert |text| == 59;
  }

  /** The payload offset NumPy writes is a multiple of 64, so a `Float32Array` view is aligned. */
  lemma PreludeAligned(major: byte, t: DType, shape: seq<nat>, spare: nat)
    requires HeaderFits(major, t, shape, spare)
    ensures |Prelude(major, t, shape, spare)| % 64 == 0
    ensures |Prelude(major, t, shape, spare)| % ElementWidth(t) == 0
  {
    WidthDivides64(t, |Prelude(major, t, shape, spare)|);
  }

  /** Both element widths divide 64. */
  lemma WidthDivides64(t: DType, n: int)
    requires n % 64 == 0
    ensures n % ElementWidth(t) == 0
  {
    var q := n / 64;
    assert n == 4 * (16 * q);
  }

  /**
   * Reading a file NumPy wrote gives back its shape, descr and elements, whatever bytes follow
   * the payload.
   */
  lemma DecodeEncode(major: byte, t: DType, shape: seq<nat>, spare: nat, elements: seq<seq<byte>>, trailing: seq<byte>)
    requires HeaderFits(major, t, shape, spare)
    requires |shape| >= 1 && |elements| == Product(shape) && |elements| <= MaxSafeInteger
    requires forall i :: 0 <= i < |elements| ==> |elements[i]| == ElementWidth(t)
    ensures Decode(Prelude(major, t, shape, spare) + Flatten(elements) + trailing) == Ok(NpyArray(shape, Descr(t), t, elements))
  {
    PayloadAfterPrelude(major, t, shape, spare, elements, trailing);
    DecodeViewedPrelude(major, t, shape, spare, Flatten(elements) + trailing, elements);
  }

  /** After a prelude whose view succeeds, the reader returns the announced fields and that view. */
  lemma DecodeViewedPrelude(major: byte, t: DType, shape: seq<nat>, spare: nat, rest: seq<byte>, elements: seq<seq<byte>>)
    requires HeaderFits(major, t, shape, spare) && shape != []
    requires View(Prelude(major, t, shape, spare) + rest, |Prelude(major, t, shape, spare)|, Product(shape), t) == Ok(elements)
    ensures Decode(Prelude(major, t, shape, spare) + rest) == Ok(NpyArray(shape, Descr(t), t, elements))
  {
    DecodeAfterPrelude(major, t, shape, spare, rest);
  }

  /** The file is its prelude followed by the rest, and the view at the prelude's end is the elements. */
  lemma PayloadAfterPrelude(major: byte, t: DType, shape: seq<nat>, spare: nat, elements: seq<seq<byte>>, trailing: seq<byte>)
    requires HeaderFits(major, t, shape, spare) && |elements| <= MaxSafeInteger
    requires forall i :: 0 <= i < |elements| ==> |elements[i]| == ElementWidth(t)
    ensures Prelude(major, t, shape, spare) + Flatten(elements) + trailing == Prelude(major, t, shape, spare) + (Flatten(elements) + trailing)
    ensures View(Prelude(major, t, shape, spare) + (Flatten(elements) + trailing), |Prelude(major, t, shape, spare)|, |elements|, t) ==
            Ok(elements)
  {
    PreludeAligned(major, t, shape, spare);
    ViewAfterPrelude(Prelude(major, t, shape, spare), t, elements, trailing);
  }

  /** Groups written right after an aligned prefix are read back by the view at its end. */
  lemma ViewAfterPrelude(prelude: seq<byte>, t: DType, elements: seq<seq<byte>>, trailing: seq<byte>)
    requires |prelude| % ElementWidth(t) == 0 && |elements| <= MaxSafeInteger
    requires forall i :: 0 <= i < |elements| ==> |elements[i]| == ElementWidth(t)
    ensures (prelude + Flatten(elements)) + trailing == prelude + (Flatten(elements) + trailing)
    ensures View(prelude + (Flatten(elements) + trailing), |prelude|, |elements|, t) == Ok(elements)
  {
    var payload := Flatten(elements);
    var b := prelude + payload + trailing;
    AppendAfterPayload(prelude, payload, trailing);
    ViewOfGroups(b, |prelude|, t, elements);
  }

  lemma AppendAfterPayload(prelude: seq<byte>, payload: seq<byte>, trailing: seq<byte>)
    ensures (prelude + payload) + trailing == prelude + (payload + trailing)
    ensures (prelude + payload + trailing)[|prelude|..|prelude| + |payload|] == payload
  {
    assert (prelude + payload + trailing)[..|prelude| + |payload|] == prelude + payload;
  }

  /** A file cut short inside its payload fails with the byte count the view needed. */
  lemma TruncatedPayloadRejected(major: byte, t: DType, shape: seq<nat>, spare: nat, elements: seq<seq<byte>>, keep: nat)
    requires HeaderFits(major, t, shape, spare)
    requires |shape| >= 1 && |elements| == Product(shape) && |elements| <= MaxSafeInteger
    requires forall i :: 0 <= i < |elements| ==> |elements[i]| == ElementWidth(t)
    requires keep < |Flatten(elements)|
    ensures Decode(Prelude(major, t, shape, spare) + Flatten(elements)[..keep]) ==
            Err(ShortPayload(|elements| * ElementWidth(t), keep))
  {
    PreludeAligned(major, t, shape, spare);
    FlattenLength(elements, ElementWidth(t));
    ShortView(Prelude(major, t, shape, spare), t, Flatten(elements)[..keep], Product(shape));
    DecodeRefusedView(major, t, shape, spare, Flatten(elements)[..keep], ShortPayload(|elements| * ElementWidth(t), keep));
  }

  /** Fewer bytes after an aligned prefix than `count` elements need make the view fail. */
  lemma ShortView(prefix: seq<byte>, t: DType, rest: seq<byte>, count: nat)
    requires |prefix| % ElementWidth(t) == 0 && count <= MaxSafeInteger && |rest| < count * ElementWidth(t)
    ensures View(prefix + rest, |prefix|, count, t) == Err(ShortPayload(count * ElementWidth(t), |rest|))
  {
  }

  /**
   * A header NumPy writes for a shape whose product exceeds 2^53 - 1 is refused when the view is
   * opened, whatever the buffer holds, as long as the payload starts aligned (as `PreludeAligned`
   * shows it always does after a prelude).
   */
  lemma OversizedCountRejected(b: seq<byte>, offset: nat, t: DType, shape: seq<nat>, spare: nat, w: nat)
    requires offset <= |b| && offset % ElementWidth(t) == 0
    requires |shape| >= 1 && Product(shape) > MaxSafeInteger
    ensures DecodeBody(b, offset, HeaderFor(t, shape, spare, w)) == Err(CountTooLarge(Product(shape)))
  {
    HeaderBody(b, offset, t, shape, spare, w);
  }

  /** After a prelude whose view fails, the reader fails with the view's error. */
  lemma DecodeRefusedView(major: byte, t: DType, shape: seq<nat>, spare: nat, rest: seq<byte>, e: DecodeError)
    requires HeaderFits(major, t, shape, spare) && shape != []
    requires View(Prelude(major, t, shape, spare) + rest, |Prelude(major, t, shape, spare)|, Product(shape), t) == Err(e)
    ensures Decode(Prelude(major, t, shape, spare) + rest) == Err(e)
  {
    DecodeAfterPrelude(major, t, shape, spare, rest);
  }

  /** A zero-dimensional array, which NumPy writes with the shape `()`, is refused. */
  lemma ScalarFileRejected(major: byte, t: DType, spare: nat, elements: seq<seq<byte>>)
    requires HeaderFits(major, t, [], spare)
    ensures Decode(Prelude(major, t, [], spare) + Flatten(elements)) == Err(EmptyShape)
  {
    DecodeAfterPrelude(major, t, [], spare, Flatten(elements));
  }

  // ---------------------------------------------------------------------------------------
  // Two checks as vtk.js writes them.

  /**
   * The text vtk.js compares the first six bytes with: its literal `"\\x93NUMPY"` spells a
   * backslash, `x`, `9`, `3` and `NUMPY`, nine characters, where the byte 0x93 was meant.
   */
  const SignatureTextAsWritten := "\\x93NUMPY"

  /** The signature check as written: the first six bytes, one character each, equal that text. */
  predicate SignatureMatchesAsWritten(b: seq<byte>): (r: bool)
    requires |b| >= 6
    ensures !r
  {
    assert |AsciiText(b[..6])| == 6 && |SignatureTextAsWritten| == 9;
    AsciiText(b[..6]) == SignatureTextAsWritten
  }

  /** The check as written refuses every file NumPy writes, each of which the intended check accepts. */
  lemma AsWrittenRejectsNumpyFiles(major: byte, t: DType, shape: seq<nat>, spare: nat, elements: seq<seq<byte>>, trailing: seq<byte>)
    requires HeaderFits(major, t, shape, spare)
    requires |shape| >= 1 && |elements| == Product(shape) && |elements| <= MaxSafeInteger
    requires forall i :: 0 <= i < |elements| ==> |elements[i]| == ElementWidth(t)
    ensures |Prelude(major, t, shape, spare) + Flatten(elements) + trailing| >= 6
    ensures !SignatureMatchesAsWritten(Prelude(major, t, shape, spare) + Flatten(elements) + trailing)
    ensures Decode(Prelude(major, t, shape, spare) + Flatten(elements) + trailing) == Ok(NpyArray(shape, Descr(t), t, elements))
  {
    DecodeEncode(major, t, shape, spare, elements, trailing);
  }

  /**
   * The descr lookup as written finds nothing in a header NumPy writes, which holds no backslash,
   * while the intended lookup finds the descriptor.
   */
  lemma AsWrittenDescrMissesNumpyHeader(t: DType, shape: seq<nat>, spare: nat, w: nat)
    ensures Search(HeaderFor(t, shape, spare, w), DescrPattern, 0) == Some(Descr(t))
    ensures Search(HeaderFor(t, shape, spare, w), DescrPatternAsWritten, 0).None?
  {
    var h := HeaderFor(t, shape, spare, w);
    HeaderLookups(t, shape, spare, w);
    HeaderPlain(t, shape, spare, w);
    AsWrittenDescrNeedsBackslash(h);
  }
}
