/**
 * url_decode of url.c: an in-place rewrite of a character buffer that turns
 * every "%20" into a space, the only percent-encoding (section 2.1 of
 * RFC 3986) the library decodes.  The buffer is an array; len plays the part
 * of the size_t bound on the read index.
 */
module UrlDecode {
  import opened CString

  /** The text starts with the code "%20". */
  predicate CodeAt(t: seq<char>)
  {
    |t| >= 3 && t[0] == '%' && t[1] == '2' && t[2] == '0'
  }

  /** No "%20" anywhere in s. */
  predicate NoCode(s: string)
  {
    forall j :: 0 <= j < |s| ==> !CodeAt(s[j..])
  }

  /** The decoded text: each "%20", scanned from the left, becomes one space; everything else is kept. */
  function Decode(s: string): (r: string)
    ensures |r| <= |s|
  {
    if s == [] then []
    else if CodeAt(s) then [' '] + Decode(s[3..])
    else [s[0]] + Decode(s[1..])
  }

  /** Text without a code decodes to itself. */
  lemma {:induction false} DecodeNoCode(s: string)
    requires NoCode(s)
    ensures Decode(s) == s
  {
    if s != [] {
      assert !CodeAt(s[0..]) && s[0..] == s;
      assert NoCode(s[1..]) by {
        forall j | 0 <= j < |s| - 1
          ensures !CodeAt(s[1..][j..])
        {
          assert s[1..][j..] == s[j + 1..];
        }
      }
      DecodeNoCode(s[1..]);
    }
  }

  /** Decoding introduces no NUL: a NUL-free string stays NUL-free. */
  lemma {:induction false} DecodeNoNul(s: string)
    requires forall j :: 0 <= j < |s| ==> s[j] != '\0'
    ensures forall j :: 0 <= j < |Decode(s)| ==> Decode(s)[j] != '\0'
  {
    if s != [] {
      if CodeAt(s) {
        DecodeNoNul(s[3..]);
      } else {
        DecodeNoNul(s[1..]);
      }
    }
  }

  /** The length drops by two per code. */
  lemma DecodeShorter(s: string)
    requires CodeAt(s)
    ensures |Decode(s)| == 1 + |Decode(s[3..])| && |Decode(s)| <= |s| - 2
  {
  }

  /** Every space-free text is decoded from itself with each space written as "%20": decoding inverts that encoding. */
  function Encode(s: string): (r: string)
    ensures |r| >= |s|
  {
    if s == [] then [] else (if s[0] == ' ' then "%20" else [s[0]]) + Encode(s[1..])
  }

  /** A text with no '%' decodes back from its encoding. */
  lemma {:induction false} DecodeEncode(s: string)
    requires forall j :: 0 <= j < |s| ==> s[j] != '%'
    ensures Decode(Encode(s)) == s
  {
    if s != [] {
      var e := Encode(s);
      var t := Encode(s[1..]);
      DecodeEncode(s[1..]);
      if s[0] == ' ' {
        assert e == "%20" + t && e[3..] == t;
      } else {
        assert e == [s[0]] + t && e[1..] == t;
        assert !CodeAt(e);
      }
      assert s == [s[0]] + s[1..];
    }
  }

  /** A code in a buffer that has a NUL at n and none before lies wholly before the NUL. */
  lemma CodeBeforeNul(o: seq<char>, n: nat, r: nat)
    requires n < |o| && o[n] == '\0' && r < n && CodeAt(o[r..])
    ensures r + 3 <= n && CodeAt(o[..n][r..])
  {
    assert o[r..][0] == o[r] && o[r..][1] == o[r + 1] && o[r..][2] == o[r + 2];
  }

  /** The buffer holds the string t: t, then its NUL. */
  lemma CStrAt(b: seq<char>, t: string)
    requires |t| < |b| && b[..|t|] == t && b[|t|] == '\0'
    requires forall j :: 0 <= j < |t| ==> t[j] != '\0'
    ensures CStr(b) == t
  {
  }

  /**
   * The state of the url_decode loop over the buffer b that started out as o,
   * whose string ends at its first NUL, at n: write index i, read index
   * i + off.  Before the NUL is read, the bytes written and the decoding of
   * what is left to read make up the decoded string; once it is read, the
   * decoded string and its NUL stand at the front of the buffer.  Bytes from
   * the write index on are untouched.
   */
  ghost predicate Inv(o: seq<char>, n: nat, b: seq<char>, i: nat, off: nat, len: nat)
  {
    n < |o| && |b| == |o| && o[n] == '\0' && (forall j :: 0 <= j < n ==> o[j] != '\0') &&
    i <= len <= |o| && i + off <= |o| &&
    (i + off > n + 1 ==> len > n + 1) &&
    (forall j :: i <= j < |o| ==> b[j] == o[j]) &&
    (i + off <= n ==> b[..i] + Decode(o[i + off..n]) == Decode(o[..n])) &&
    (i + off > n ==> |Decode(o[..n])| < i && b[..|Decode(o[..n])|] == Decode(o[..n]) && b[|Decode(o[..n])|] == '\0') &&
    (i + off == n + 1 ==> i == |Decode(o[..n])| + 1) &&
    (NoCode(o[..n]) ==> off == 0 && i + off <= n && b == o)
  }

  /** Whether the loop body at read index r takes a code: the byte is '%' and the strncmp with "%20" succeeds. */
  predicate Takes(b: seq<char>, r: nat)
    requires r < |b|
  {
    b[r] == '%' && CodeAt(b[r..])
  }

  /** The byte the loop body leaves at the write index. */
  function Written(b: seq<char>, r: nat): char
    requires r < |b|
  {
    if Takes(b, r) then ' ' else b[r]
  }

  /** How far the loop body moves the offset. */
  function Skip(b: seq<char>, r: nat): nat
    requires r < |b|
  {
    if Takes(b, r) then 2 else 0
  }

  /** One turn of the loop keeps its invariant. */
  lemma Step(o: seq<char>, n: nat, b: seq<char>, i: nat, off: nat, len: nat)
    requires Inv(o, n, b, i, off, len) && i + off < len && b[i] != '\0'
    ensures Inv(o, n, b[i := Written(b, i + off)], i + 1, off + Skip(b, i + off), len)
  {
    var r := i + off;
    if r < n {
      StepBeforeNul(o, n, b, i, off, len);
    } else if r == n {
      StepOnNul(o, n, b, i, off, len);
    } else {
      StepAfterNul(o, n, b, i, off, len);
    }
  }

  /** A turn that reads a byte of the string. */
  lemma StepBeforeNul(o: seq<char>, n: nat, b: seq<char>, i: nat, off: nat, len: nat)
    requires Inv(o, n, b, i, off, len) && i + off < len && i + off < n
    ensures Inv(o, n, b[i := Written(b, i + off)], i + 1, off + Skip(b, i + off), len)
  {
    if Takes(b, i + off) {
      StepOnCode(o, n, b, i, off, len);
    } else {
      StepOnByte(o, n, b, i, off, len);
    }
  }

  /** A turn that meets "%20" before the NUL: a space is written and the code skipped. */
  lemma StepOnCode(o: seq<char>, n: nat, b: seq<char>, i: nat, off: nat, len: nat)
    requires Inv(o, n, b, i, off, len) && i + off < len && i + off < n && Takes(b, i + off)
    ensures Inv(o, n, b[i := ' '], i + 1, off + 2, len)
  {
    var r := i + off;
    var t := o[r..n];
    var b' := b[i := ' '];
    assert b[r..] == o[r..];
    assert b'[..i + 1] == b[..i] + [' '];
    CodeBeforeNul(o, n, r);
    assert o[..n][r..] == t && t[3..] == o[r + 3..n];
    assert Decode(t) == [' '] + Decode(o[r + 3..n]);
  }

  /** A turn that copies a byte before the NUL. */
  lemma StepOnByte(o: seq<char>, n: nat, b: seq<char>, i: nat, off: nat, len: nat)
    requires Inv(o, n, b, i, off, len) && i + off < len && i + off < n && !Takes(b, i + off)
    ensures Inv(o, n, b[i := b[i + off]], i + 1, off, len)
  {
    var r := i + off;
    var t := o[r..n];
    var b' := b[i := b[r]];
    assert b[r..] == o[r..];
    assert b'[..i + 1] == b[..i] + [b[r]];
    assert !CodeAt(t);
    assert t[1..] == o[r + 1..n];
    assert Decode(t) == [o[r]] + Decode(o[r + 1..n]);
  }

  /** The turn that reads the NUL: it is copied to the end of the decoded string. */
  lemma StepOnNul(o: seq<char>, n: nat, b: seq<char>, i: nat, off: nat, len: nat)
    requires Inv(o, n, b, i, off, len) && i + off < len && b[i] != '\0' && i + off == n
    ensures Inv(o, n, b[i := Written(b, i + off)], i + 1, off + Skip(b, i + off), len)
  {
    assert o[n..n] == [];
    assert b[..i] == Decode(o[..n]);
    assert !Takes(b, n);
    var b' := b[i := Written(b, n)];
    assert b'[..i] == b[..i];
  }

  /** A turn after the NUL was copied: the bytes it moves lie beyond the decoded string. */
  lemma StepAfterNul(o: seq<char>, n: nat, b: seq<char>, i: nat, off: nat, len: nat)
    requires Inv(o, n, b, i, off, len) && i + off < len && i + off > n
    ensures Inv(o, n, b[i := Written(b, i + off)], i + 1, off + Skip(b, i + off), len)
  {
    var p := |Decode(o[..n])|;
    var b' := b[i := Written(b, i + off)];
    assert b'[..p] == b[..p];
  }

  /** The loop's state before its first turn, in a buffer that ends with a NUL. */
  lemma Start(o: seq<char>, len: nat)
    requires len <= |o| && |o| > 0 && o[|o| - 1] == '\0'
    ensures |CStr(o)| < |o| && o[..|CStr(o)|] == CStr(o)
    ensures Inv(o, |CStr(o)|, o, 0, 0, len)
  {
    var n := |CStr(o)|;
    assert o[0..n] == o[..n];
  }

  /** What the loop leaves behind once its condition fails. */
  lemma Finish(o: seq<char>, n: nat, b: seq<char>, i: nat, off: nat, len: nat)
    requires Inv(o, n, b, i, off, len) && !(i + off < len && b[i] != '\0')
    ensures len == n + 1 ==> b == Decode(o[..n]) + ['\0'] + o[|Decode(o[..n])| + 1..]
    ensures len > n ==> CStr(b) == Decode(o[..n])
    ensures len == 0 || NoCode(o[..n]) ==> b == o
  {
    var d := Decode(o[..n]);
    var p := |d|;
    DecodeNoNul(o[..n]);
    if i + off <= n && len > n {
      assert b[i] == '\0';
      assert i == n && off == 0;
      assert o[n..n] == [];
      assert b[..n] == d && p == n;
    }
    if len > n {
      assert b[..p] == d && b[p] == '\0';
      CStrAt(b, d);
    }
    if len == n + 1 {
      assert i == p + 1 || (i == n && p == n);
      assert b == b[..p] + [b[p]] + b[p + 1..];
    }
    if len == 0 {
      assert b == o;
    }
  }

  /**
   * One turn of the url_decode loop: the byte at the read index i + offset
   * is copied down to the write index i, and a "%20" there is written as a
   * space instead; took says whether it was, so that the caller skips the
   * read index two further.
   */
  method DecodeStep(str: array<char>, i: nat, offset: nat, ghost o: seq<char>, ghost n: nat, ghost len: nat)
    returns (took: bool)
    requires Inv(o, n, str[..], i, offset, len) && i + offset < len && str[i] != '\0'
    modifies str
    ensures Inv(o, n, str[..], i + 1, offset + (if took then 2 else 0), len)
  {
    var r := i + offset;
    ghost var b := str[..];
    Step(o, n, b, i, offset, len);
    var c := str[r];
    str[i] := c;
    assert str[r..] == b[r..];
    took := false;
    if c == '%' {
      if CodeAt(str[r..]) {
        str[i] := ' ';
        took := true;
      }
    }
    assert str[..] == b[i := Written(b, r)];
  }

  /**
   * The loop of url_decode: turns while the read index is below len and the
   * byte at the write index is not NUL; offset counts two per code taken.
   */
  method DecodeLoop(str: array<char>, ghost o: seq<char>, ghost n: nat, len: nat)
    returns (i: nat, offset: nat)
    requires Inv(o, n, str[..], 0, 0, len)
    modifies str
    ensures Inv(o, n, str[..], i, offset, len) && !(i + offset < len && str[i] != '\0')
  {
    i := 0;
    offset := 0;
    ghost var replaced: nat := 0;
    while i + offset < len && str[i] != '\0'
      invariant Inv(o, n, str[..], i, offset, len)
      invariant offset == 2 * replaced && replaced <= i
      decreases len - (i + offset)
    {
      var took := DecodeStep(str, i, offset, o, n, len);
      offset, replaced := offset + (if took then 2 else 0), replaced + (if took then 1 else 0);
      i := i + 1;
    }
  }

  /**
   * url_decode(str, len).  A NULL buffer is left alone.  Otherwise the read
   * index i + offset walks the buffer while it is below len and the byte at
   * the write index i is not NUL; each byte is copied down to i, and a "%20"
   * at the read index (the strncmp test, which never reads past the NUL the
   * buffer ends with) is written as a space and skips the read index two
   * further.  No byte at an index from len on is written; the strncmp
   * test may read up to two bytes past len.
   */
  method Decoder(str: array?<char>, len: nat)
    requires str != null ==> len <= str.Length && str.Length > 0 && str[str.Length - 1] == '\0'
    modifies str
    ensures str != null ==> forall j :: len <= j < str.Length ==> str[j] == old(str[j])
    ensures str != null && len == |CStr(old(str[..]))| + 1 ==>
      str[..] == Decode(CStr(old(str[..]))) + ['\0'] + old(str[..])[|Decode(CStr(old(str[..])))| + 1..]
    ensures str != null && len > |CStr(old(str[..]))| ==> CStr(str[..]) == Decode(CStr(old(str[..])))
    ensures str != null && (len == 0 || NoCode(CStr(old(str[..])))) ==> str[..] == old(str[..])
  {
    if str == null {
      return;
    }
    ghost var o := str[..];
    ghost var n := |CStr(o)|;
    Start(o, len);
    var i, offset := DecodeLoop(str, o, n, len);
    Finish(o, n, str[..], i, offset, len);
  }
}
