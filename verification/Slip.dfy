/** SLIP framing (RFC 1055, section "PROTOCOL"): delimiters, and the escapes that
    keep them out of a frame. */
module Slip {
  import opened Basics
  import opened Bits

  const END: byte := 0xC0
  const ESC: byte := 0xDB
  const ESC_END: byte := 0xDC
  const ESC_ESC: byte := 0xDD

  function EscapeByte(b: byte): seq<byte> {
    if b == END then [ESC, ESC_END] else if b == ESC then [ESC, ESC_ESC] else [b]
  }

  function Escaped(s: seq<byte>): (r: seq<byte>)
    ensures |r| >= |s|
  {
    if s == [] then [] else EscapeByte(s[0]) + Escaped(s[1..])
  }

  /** The bytes between two delimiters, decoded; None on an escape that is
      neither of the two, or is cut off. */
  function Unescaped(s: seq<byte>): Option<seq<byte>> {
    if s == [] then Some([])
    else if s[0] != ESC then Prepend(s[0], Unescaped(s[1..]))
    else if |s| >= 2 && s[1] == ESC_END then Prepend(END, Unescaped(s[2..]))
    else if |s| >= 2 && s[1] == ESC_ESC then Prepend(ESC, Unescaped(s[2..]))
    else None
  }

  function Prepend(b: byte, r: Option<seq<byte>>): Option<seq<byte>> {
    if r.None? then None else Some([b] + r.value)
  }

  /** The two bytes that are escaped, and into what; the rest stands for itself. */
  lemma EscapedBytes(b: byte)
    ensures b == 0xC0 ==> Escaped([b]) == [0xDB, 0xDC]
    ensures b == 0xDB ==> Escaped([b]) == [0xDB, 0xDD]
    ensures b != 0xC0 && b != 0xDB ==> Escaped([b]) == [b]
  {
    assert Escaped([b]) == EscapeByte(b) + Escaped([]);
  }

  /** Escaping works byte by byte. */
  lemma {:induction false} EscapedParts(s: seq<byte>, t: seq<byte>)
    ensures Escaped(s + t) == Escaped(s) + Escaped(t)
  {
    if s == [] {
      assert s + t == t;
    } else {
      EscapedParts(s[1..], t);
      assert (s + t)[1..] == s[1..] + t;
      Associates(EscapeByte(s[0]), Escaped(s[1..]), Escaped(t));
    }
  }

  lemma {:induction false} EscapedSnoc(s: seq<byte>, b: byte)
    ensures Escaped(s + [b]) == Escaped(s) + EscapeByte(b)
  {
    if s == [] {
      assert s + [b] == [b];
      assert Escaped([b]) == EscapeByte(b) + Escaped([]);
    } else {
      EscapedSnoc(s[1..], b);
      assert (s + [b])[1..] == s[1..] + [b];
    }
  }

  method Escape(bytes: seq<byte>) returns (out: seq<byte>)
    ensures out == Escaped(bytes)
  {
    out := [];
    for i := 0 to |bytes|
      invariant out == Escaped(bytes[..i])
    {
      var b := bytes[i];
      EscapedSnoc(bytes[..i], b);
      assert bytes[..i + 1] == bytes[..i] + [b];
      if b == 0xC0 {
        out := out + [0xDB, 0xDC];
      } else if b == 0xDB {
        out := out + [0xDB, 0xDD];
      } else {
        out := out + [b];
      }
    }
    assert bytes[..|bytes|] == bytes;
  }

  /** What is decoded so far, followed by the decoding of the rest. */
  function Onto(out: seq<byte>, r: Option<seq<byte>>): Option<seq<byte>> {
    if r.None? then None else Some(out + r.value)
  }

  lemma OntoPrepend(out: seq<byte>, b: byte, r: Option<seq<byte>>)
    ensures Onto(out, Prepend(b, r)) == Onto(out + [b], r)
  {
    if r.Some? {
      assert out + ([b] + r.value) == out + [b] + r.value;
    }
  }

  lemma OntoNothing(r: Option<seq<byte>>)
    ensures Onto([], r) == r
  {
    if r.Some? {
      assert [] + r.value == r.value;
    }
  }

  method Unescape(bytes: seq<byte>) returns (r: Option<seq<byte>>)
    ensures r == Unescaped(bytes)
  {
    var out, i := [], 0;
    assert bytes[0..] == bytes;
    OntoNothing(Unescaped(bytes));
    while i < |bytes|
      invariant i <= |bytes| && Onto(out, Unescaped(bytes[i..])) == Unescaped(bytes)
    {
      var b := bytes[i];
      if b == 0xDB {
        i := i + 1;
        if i < |bytes| && bytes[i] == 0xDC {
          OntoPrepend(out, 0xC0, Unescaped(bytes[i + 1..]));
          out := out + [0xC0];
        } else if i < |bytes| && bytes[i] == 0xDD {
          OntoPrepend(out, 0xDB, Unescaped(bytes[i + 1..]));
          out := out + [0xDB];
        } else {
          return None;
        }
        assert bytes[i - 1..][2..] == bytes[i + 1..];
      } else {
        OntoPrepend(out, b, Unescaped(bytes[i + 1..]));
        assert bytes[i..][1..] == bytes[i + 1..];
        out := out + [b];
      }
      i := i + 1;
    }
    assert bytes[i..] == [] && out + [] == out;
    return Some(out);
  }

  /** Escaping is undone by unescaping. */
  lemma {:induction false} EscapeRoundTrip(s: seq<byte>)
    ensures Unescaped(Escaped(s)) == Some(s)
  {
    if s != [] {
      EscapeRoundTrip(s[1..]);
      var e := EscapeByte(s[0]);
      var rest := Escaped(s[1..]);
      assert (e + rest)[|e|..] == rest;
      assert s == [s[0]] + s[1..];
    }
  }

  /** An escaped frame never contains the delimiter. */
  lemma {:induction false} NoDelimiter(s: seq<byte>)
    ensures END !in Escaped(s)
  {
    if s != [] {
      NoDelimiter(s[1..]);
    }
  }

  /** Without a delimiter in it, a frame decodes to `s` only if it is `s`
      escaped: there is one way to write each frame. */
  lemma {:induction false} EscapeIsCanonical(t: seq<byte>, s: seq<byte>)
    requires END !in t
    ensures Unescaped(t) == Some(s) <==> t == Escaped(s)
  {
    EscapeRoundTrip(s);
    if Unescaped(t) == Some(s) {
      OneSpelling(t, s);
    }
  }

  lemma {:induction false} OneSpelling(t: seq<byte>, s: seq<byte>)
    requires END !in t && Unescaped(t) == Some(s)
    ensures t == Escaped(s)
    decreases |t|
  {
    if t != [] {
      var n := if t[0] == ESC then 2 else 1;
      assert t[0] in t;
      OneSpelling(t[n..], s[1..]);
      assert t == t[..n] + t[n..];
      assert t[..n] == EscapeByte(s[0]);
    }
  }

  // ---- Splitting a stream into frames -------------------------------------------

  /** The non-empty stretches between delimiters; `cur` is the one being read. */
  function Frames(w: seq<byte>, cur: seq<byte>): seq<seq<byte>>
    decreases |w|
  {
    if w == [] then (if cur == [] then [] else [cur])
    else if w[0] != END then Frames(w[1..], cur + [w[0]])
    else if cur == [] then Frames(w[1..], [])
    else [cur] + Frames(w[1..], [])
  }

  lemma {:induction false} FramesReadOn(s: seq<byte>, w: seq<byte>, cur: seq<byte>)
    requires END !in s
    ensures Frames(s + w, cur) == Frames(w, cur + s)
    decreases |s|
  {
    if s == [] {
      assert s + w == w && cur + s == cur;
    } else {
      assert s[0] in s;
      assert (s + w)[1..] == s[1..] + w;
      FramesReadOn(s[1..], w, cur + [s[0]]);
      assert cur + s == cur + [s[0]] + s[1..];
    }
  }

  /** A delimited frame is split off whole. */
  lemma FrameSplitsOff(s: seq<byte>, rest: seq<byte>)
    requires s != [] && END !in s
    ensures Frames([END] + s + [END] + rest, []) == [s] + Frames(rest, [])
  {
    var w := [END] + s + [END] + rest;
    assert w[1..] == s + ([END] + rest);
    FramesReadOn(s, [END] + rest, []);
    assert [] + s == s;
    assert ([END] + rest)[1..] == rest;
  }
}
