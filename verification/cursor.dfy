/** The sequential little-endian reader both copies of the importer share:
    `read_str`, `read_struct` and `read_one`.  The two copies' definitions are
    character for character the same, so one module models both.

    The stream is the sequence of bytes not yet read; every read returns its
    value together with the bytes that remain after it. */
module Cursor {
  import opened Base
  import opened Bytes
  import Utf8

  datatype Parsed<+T> = Parsed(value: T, rest: Bytes)

  /** One code of a '<'-prefixed `struct` format: 'B', 'L' or 'f'. */
  datatype Scalar = U8 | U32 | F32

  type Format = seq<Scalar>

  function Width(k: Scalar): nat {
    match k
    case U8 => 1
    case _ => 4
  }

  /** `struct.calcsize`: with '<' there is no padding, so the widths add up. */
  function Size(fmt: Format): nat {
    if |fmt| == 0 then 0 else Width(fmt[0]) + Size(fmt[1..])
  }

  /** The format `'<kf'`: `k` floats. */
  function Floats(k: nat): (fmt: Format)
    ensures |fmt| == k && Size(fmt) == 4 * k
  {
    if k == 0 then [] else [F32] + Floats(k - 1)
  }

  /** The index of the first zero byte of `s`, if there is one. */
  function FirstZero(s: Bytes): (k: Option<nat>)
    ensures k.None? <==> 0 !in s
    ensures k.Some? ==> k.value < |s| && s[k.value] == 0 && 0 !in s[..k.value]
  {
    if |s| == 0 then None
    else if s[0] == 0 then Some(0)
    else
      match FirstZero(s[1..])
      case None => None
      case Some(k) =>
        assert s[..k + 1] == [s[0]] + s[1..][..k];
        Some(k + 1)
  }

  /** `read_str`: the bytes before the first zero byte, which is consumed
      too.  With no zero byte left, `stream.read(1)` keeps returning `b''`
      and the source's loop never ends; bytes that are not UTF-8 make the
      final `str(..., 'utf8')` raise. */
  function ReadStr(s: Bytes): (r: Result<Parsed<Bytes>>)
    ensures r.Err? && r.fault == Diverges <==> 0 !in s
    ensures r.Ok? ==> s == r.value.value + [0] + r.value.rest
    ensures r.Ok? ==> 0 !in r.value.value && Utf8.Valid(r.value.value)
    ensures r.Err? ==> r.fault in {Diverges, BadUtf8}
  {
    match FirstZero(s)
    case None => Err(Diverges)
    case Some(k) =>
      if !Utf8.Valid(s[..k]) then Err(BadUtf8)
      else
        assert s == s[..k] + [0] + s[k + 1..];
        Ok(Parsed(s[..k], s[k + 1..]))
  }

  /** `assert read_str(f) == expected`: a magic string checked on read. */
  function ExpectStr(s: Bytes, expected: Bytes): (r: Result<Bytes>)
    ensures r.Ok? <==> ReadStr(s).Ok? && ReadStr(s).value.value == expected
    ensures r.Ok? ==> s == expected + [0] + r.value
    ensures r.Err? && ReadStr(s).Ok? ==> r.fault == BadMagic
    ensures ReadStr(s).Err? ==> r == Err(ReadStr(s).fault)
  {
    var str :- ReadStr(s);
    if str.value != expected then Err(BadMagic) else Ok(str.rest)
  }

  /** `struct.unpack` on exactly `Size(fmt)` bytes: one unsigned value per
      code; a float is returned as its 32-bit pattern. */
  function Unpack(fmt: Format, bs: Bytes): (vs: seq<nat>)
    requires |bs| == Size(fmt)
    ensures |vs| == |fmt|
  {
    if |fmt| == 0 then []
    else
      var w := Width(fmt[0]);
      [LeValue(bs[..w])] + Unpack(fmt[1..], bs[w..])
  }

  /** Every unpacked value fits its code's width. */
  lemma {:induction false} UnpackFits(fmt: Format, bs: Bytes)
    requires |bs| == Size(fmt)
    ensures Fits(fmt, Unpack(fmt, bs))
  {
    if |fmt| > 0 {
      var w := Width(fmt[0]);
      var vs := Unpack(fmt, bs);
      UnpackFits(fmt[1..], bs[w..]);
      forall i | 0 < i < |fmt| ensures vs[i] < Pow256(Width(fmt[i])) {
        assert vs[i] == Unpack(fmt[1..], bs[w..])[i - 1];
      }
    }
  }

  /** `read_struct`: reads `calcsize(fmt)` bytes and unpacks them; a short
      read makes `struct.unpack` raise. */
  function ReadStruct(fmt: Format, s: Bytes): (r: Result<Parsed<seq<nat>>>)
    ensures r.Ok? <==> |s| >= Size(fmt)
    ensures r.Err? ==> r.fault == Truncated
    ensures r.Ok? ==> |r.value.value| == |fmt| && r.value.rest == s[Size(fmt)..]
  {
    if |s| < Size(fmt) then Err(Truncated)
    else Ok(Parsed(Unpack(fmt, s[..Size(fmt)]), s[Size(fmt)..]))
  }

  /** `read_one`: `read_struct` followed by `assert len(p) == 1`; the read
      comes first, so a short stream is reported before a wrong format. */
  function ReadOne(fmt: Format, s: Bytes): (r: Result<Parsed<nat>>)
    ensures r.Ok? <==> |fmt| == 1 && |s| >= Width(fmt[0])
    ensures r.Err? ==> r.fault == (if |s| < Size(fmt) then Truncated else NotOneValue)
    ensures r.Ok? ==> r.value.value < Pow256(Width(fmt[0]))
    ensures r.Ok? ==> r.value.rest == s[Width(fmt[0])..]
  {
    assert |fmt| == 1 ==> Size(fmt) == Width(fmt[0]);
    var p :- ReadStruct(fmt, s);
    UnpackFits(fmt, s[..Size(fmt)]);
    if |p.value| != 1 then Err(NotOneValue) else Ok(Parsed(p.value[0], p.rest))
  }

  /** The values fit the codes of `fmt`. */
  predicate Fits(fmt: Format, vs: seq<nat>) {
    |vs| == |fmt| && forall i :: 0 <= i < |fmt| ==> vs[i] < Pow256(Width(fmt[i]))
  }

  /** `struct.pack`: the inverse of `Unpack`. */
  function Pack(fmt: Format, vs: seq<nat>): (bs: Bytes)
    requires Fits(fmt, vs)
    ensures |bs| == Size(fmt)
  {
    if |fmt| == 0 then []
    else
      assert Fits(fmt[1..], vs[1..]) by {
        forall i | 0 <= i < |fmt| - 1 ensures vs[1..][i] < Pow256(Width(fmt[1..][i])) {
          assert vs[1..][i] == vs[i + 1] && fmt[1..][i] == fmt[i + 1];
        }
      }
      LeBytes(vs[0], Width(fmt[0])) + Pack(fmt[1..], vs[1..])
  }

  lemma {:induction false} UnpackPack(fmt: Format, vs: seq<nat>)
    requires Fits(fmt, vs)
    ensures Unpack(fmt, Pack(fmt, vs)) == vs
  {
    if |fmt| > 0 {
      var w := Width(fmt[0]);
      var bs := Pack(fmt, vs);
      assert bs[..w] == LeBytes(vs[0], w);
      assert bs[w..] == Pack(fmt[1..], vs[1..]);
      LeValueOfLeBytes(vs[0], w);
      UnpackPack(fmt[1..], vs[1..]);
    }
  }

  /** Reading back packed values gives the values and leaves exactly the
      bytes that followed them. */
  lemma {:induction false} ReadStructOfPack(fmt: Format, vs: seq<nat>, rest: Bytes)
    requires Fits(fmt, vs)
    ensures ReadStruct(fmt, Pack(fmt, vs) + rest) == Ok(Parsed(vs, rest))
  {
    var s := Pack(fmt, vs) + rest;
    assert s[..Size(fmt)] == Pack(fmt, vs);
    assert s[Size(fmt)..] == rest;
    UnpackPack(fmt, vs);
  }

  /** A byte read with `read_one('<B')` is itself. */
  lemma {:induction false} ReadOneOfByte(b: byte, rest: Bytes)
    ensures ReadOne([U8], [b] + rest) == Ok(Parsed(b, rest))
  {
    assert LeBytes(b, 1) == [b];
    assert Pack([U8], [b]) == [b];
    ReadStructOfPack([U8], [b], rest);
  }

  /** A string written with its terminator reads back as itself. */
  lemma {:induction false} ReadStrOfTerminated(name: Bytes, rest: Bytes)
    requires 0 !in name && Utf8.Valid(name)
    ensures ReadStr(name + [0] + rest) == Ok(Parsed(name, rest))
  {
    var s := name + [0] + rest;
    var k := FirstZero(s);
    assert s[|name|] == 0;
    assert forall i :: 0 <= i < |name| ==> s[i] == name[i];
    assert k.Some?;
    assert forall j :: |name| < j <= |s| ==> s[..j][|name|] == 0;
    assert k.value == |name|;
    assert s[..|name|] == name;
    assert s[|name| + 1..] == rest;
  }

  lemma {:induction false} SizeAppend(f1: Format, f2: Format)
    ensures Size(f1 + f2) == Size(f1) + Size(f2)
  {
    if |f1| > 0 {
      assert (f1 + f2)[0] == f1[0];
      assert (f1 + f2)[1..] == f1[1..] + f2;
      SizeAppend(f1[1..], f2);
    } else {
      assert f1 + f2 == f2;
    }
  }

  /** Unpacking two formats' bytes in one go is unpacking each. */
  lemma {:induction false} UnpackAppend(f1: Format, f2: Format, b1: Bytes, b2: Bytes)
    requires |b1| == Size(f1) && |b2| == Size(f2)
    ensures Size(f1 + f2) == |b1 + b2|
    ensures Unpack(f1 + f2, b1 + b2) == Unpack(f1, b1) + Unpack(f2, b2)
  {
    SizeAppend(f1, f2);
    if |f1| > 0 {
      var w := Width(f1[0]);
      var tail := f1[1..];
      assert (f1 + f2)[0] == f1[0] && (f1 + f2)[1..] == tail + f2;
      assert (b1 + b2)[..w] == b1[..w];
      assert (b1 + b2)[w..] == b1[w..] + b2;
      UnpackAppend(tail, f2, b1[w..], b2);
      var x := LeValue(b1[..w]);
      var u1 := Unpack(tail, b1[w..]);
      var u2 := Unpack(f2, b2);
      assert Unpack(f1 + f2, b1 + b2) == [x] + (u1 + u2);
      assert Unpack(f1, b1) == [x] + u1;
    } else {
      assert f1 + f2 == f2;
      assert b1 + b2 == b2;
    }
  }

  /** Reading `f1 + f2` in one call is reading `f1` and then `f2`: the
      values come out concatenated and the same bytes remain. */
  lemma {:induction false} ReadStructAppend(f1: Format, f2: Format, s: Bytes)
    ensures var whole := ReadStruct(f1 + f2, s);
            var first := ReadStruct(f1, s);
            whole.Ok? <==> first.Ok? && ReadStruct(f2, first.value.rest).Ok?
    ensures var whole := ReadStruct(f1 + f2, s);
            var first := ReadStruct(f1, s);
            whole.Ok? ==>
              var second := ReadStruct(f2, first.value.rest);
              whole.value.value == first.value.value + second.value.value
              && whole.value.rest == second.value.rest
  {
    SizeAppend(f1, f2);
    if |s| >= Size(f1) + Size(f2) {
      var b1 := s[..Size(f1)];
      var b2 := s[Size(f1)..][..Size(f2)];
      UnpackAppend(f1, f2, b1, b2);
      assert s[..Size(f1) + Size(f2)] == b1 + b2;
      assert s[Size(f1)..][Size(f2)..] == s[Size(f1) + Size(f2)..];
    }
  }

  lemma {:induction false} FloatsAppend(a: nat, b: nat)
    ensures Floats(a + b) == Floats(a) + Floats(b)
  {
    if a > 0 {
      FloatsAppend(a - 1, b);
    }
  }
}
