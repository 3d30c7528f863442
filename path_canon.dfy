/**
 * canonicalize_filename of path.c: the normalisation of a path inside the
 * zip archive.  Runs of '/' collapse, leading slashes go, and ".." cuts the
 * output back; symbolic links play no part.  The C function walks the input
 * once and writes a fixed 4096-byte buffer, which the model keeps as an
 * array.  The walk's state after each input character is the state
 * Run computes, a left fold of Step over the characters read so far.
 */
module PathCanon {
  import opened Wrappers
  import opened CString

  /** MAX_PATH_SIZE: the size of the result buffer and the most input characters read. */
  const MAX_PATH_SIZE: nat := 4096

  /** No NUL among the characters. */
  predicate NoNul(s: string)
  {
    forall k :: 0 <= k < |s| ==> s[k] != '\0'
  }

  /**
   * The walk's state: the output so far (the buffer up to j), the input
   * offsets of the last two slashes written (prev_last_slash, last_slash)
   * and the previous input character (cprev).
   */
  datatype PState = PState(out: string, prev: int, last: int, cprev: char)

  /** The state before the first character: nothing written, no slash seen, cprev NUL. */
  const Init: PState := PState([], -1, -1, '\0')

  /**
   * One character c at input offset i.  A '/' is dropped after a '/' or at
   * the front of the output, and otherwise written, remembering its input
   * offset.  A '.' after a '.' cuts the output back to the remembered offset
   * prev_last_slash when that is positive, and to nothing otherwise; the
   * assignment cprev = '/' that the cut makes is overwritten straight away,
   * so cprev is always the character just read.  Anything else is written.
   */
  function Step(st: PState, i: int, c: char): (r: PState)
    ensures r.cprev == c && |r.out| <= |st.out| + 1
    ensures c != '/' && !(c == '.' && st.cprev == '.') ==> r.out == st.out + [c]
    ensures c == '/' ==> if st.cprev == '/' || |st.out| == 0 then r.out == st.out else r.out == st.out + ['/'] && r.last == i
    ensures c == '.' && st.cprev == '.' ==> r.out <= st.out
    ensures NoNul(st.out) && c != '\0' ==> NoNul(r.out)
  {
    if c == '/' then
      if st.cprev == '/' || |st.out| == 0 then st.(cprev := c)
      else PState(st.out + [c], st.last, i, c)
    else if c == '.' && st.cprev == '.' then
      var start := if st.prev > 0 then st.prev else 0;
      st.(out := if |st.out| > start then st.out[..start] else st.out, cprev := c)
    else st.(out := st.out + [c], cprev := c)
  }

  /**
   * The state after the characters t, read from state st, the first of them
   * at input offset base.  Each character adds at most one byte, no NUL
   * appears that was not read, and cprev is the last character read.
   */
  function Run(st: PState, t: string, base: int): (r: PState)
    ensures |r.out| <= |st.out| + |t|
    ensures NoNul(st.out) && NoNul(t) ==> NoNul(r.out)
    ensures t != [] ==> r.cprev == t[|t| - 1]
    ensures t == [] ==> r == st
    decreases |t|
  {
    if t == [] then st
    else
      var p := Run(st, t[..|t| - 1], base);
      assert NoNul(t) ==> NoNul(t[..|t| - 1]);
      Step(p, base + |t| - 1, t[|t| - 1])
  }

  /** The at most MAX_PATH_SIZE characters the loop reads: those before the NUL, and no more than the buffer holds. */
  function Input(buf: seq<char>): (r: string)
    ensures |r| <= MAX_PATH_SIZE && NoNul(r)
    ensures |r| <= |CStr(buf)| && r == CStr(buf)[..|r|]
    ensures |r| < MAX_PATH_SIZE ==> r == CStr(buf)
  {
    var c := CStr(buf);
    if |c| <= MAX_PATH_SIZE then c else c[..MAX_PATH_SIZE]
  }

  /** strndup(buf, n): the characters before the first NUL, at most n of them. */
  function StrNDup(buf: seq<char>, n: nat): (r: string)
    requires n <= |buf|
    ensures |r| <= n && NoNul(r)
  {
    CStr(buf[..n])
  }

  /**
   * The path canonicalize_filename returns for the input characters s: the
   * output of the walk, cut to MAX_PATH_SIZE - 1 characters by the final
   * strndup.  It is never longer than the input, nor than 4095 characters.
   */
  function Canon(s: string): (r: string)
    ensures |r| <= |s| && |r| <= MAX_PATH_SIZE - 1
    ensures NoNul(s) ==> NoNul(r)
  {
    var o := Run(Init, s, 0).out;
    if |o| <= MAX_PATH_SIZE - 1 then o else o[..MAX_PATH_SIZE - 1]
  }

  /** Reading a + b is reading a, then b from where a left off. */
  lemma {:induction false} RunAppend(st: PState, a: string, b: string, base: int)
    ensures Run(st, a + b, base) == Run(Run(st, a, base), b, base + |a|)
    decreases |b|
  {
    if b == [] {
      assert a + b == a;
    } else {
      var b' := b[..|b| - 1];
      assert (a + b)[..|a + b| - 1] == a + b';
      assert (a + b)[|a + b| - 1] == b[|b| - 1];
      RunAppend(st, a, b', base);
    }
  }

  /** The state after one more character is one Step further. */
  lemma RunSnoc(st: PState, t: string, c: char, base: int)
    ensures Run(st, t + [c], base) == Step(Run(st, t, base), base + |t|, c)
  {
    assert (t + [c])[..|t|] == t;
  }

  // ---------------------------------------------------------------------
  // The buffer side: the result buffer is the output followed by NULs.
  // ---------------------------------------------------------------------

  /** The 4096-byte buffer holds the output at its front and NUL from j on. */
  predicate Holds(buf: seq<char>, out: string)
  {
    |out| <= |buf| && buf[..|out|] == out && forall k :: |out| <= k < |buf| ==> buf[k] == '\0'
  }

  /** strndup of a buffer holding a NUL-free output returns the output, cut to n characters. */
  lemma StrNDupOfHeld(buf: seq<char>, out: string, n: nat)
    requires Holds(buf, out) && NoNul(out) && n <= |buf|
    ensures StrNDup(buf, n) == if |out| <= n then out else out[..n]
  {
    var m := if |out| <= n then |out| else n;
    var b := buf[..n];
    assert b[..m] == out[..m];
    if m < n {
      assert b[m] == '\0';
    }
    CStrAtFront(b, out[..m]);
    if |out| <= n {
      assert out[..m] == out;
    }
  }

  /** A buffer whose front is the NUL-free t, followed by a NUL or the end, holds the C string t. */
  lemma {:induction false} CStrAtFront(b: seq<char>, t: string)
    requires |t| <= |b| && b[..|t|] == t && NoNul(t)
    requires |t| < |b| ==> b[|t|] == '\0'
    ensures CStr(b) == t
    decreases |t|
  {
    if t == [] {
      assert b == [] || b[0] == '\0';
    } else {
      assert b[0] == t[0];
      assert b[1..][..|t| - 1] == t[1..];
      CStrAtFront(b[1..], t[1..]);
    }
  }

  /**
   * The zeroing loop of a ".." cut: NUL is written from j down to start and
   * at start, leaving the output cut to start characters when it was
   * longer.
   */
  method CutBack(result: array<char>, j0: nat, start: nat, ghost out: string) returns (j: nat)
    requires j0 == |out| < result.Length && Holds(result[..], out)
    modifies result
    ensures j == (if j0 > start then start else j0)
    ensures Holds(result[..], out[..j])
  {
    j := j0;
    while j > start
      invariant (if j0 > start then start else j0) <= j <= j0
      invariant result[..j] == out[..j]
      invariant forall k :: j <= k < result.Length ==> result[k] == '\0' || k == j
      invariant forall k :: j < k < result.Length ==> result[k] == '\0'
    {
      result[j] := '\0';
      j := j - 1;
    }
    result[j] := '\0';
    assert result[..j] == out[..j];
  }

  /** The buffer and the walk's variables agree with the state st. */
  predicate Agrees(buf: seq<char>, j: nat, prev: int, last: int, cprev: char, st: PState)
  {
    j == |st.out| && Holds(buf, st.out) && st == PState(buf[..j], prev, last, cprev)
  }

  /**
   * The body of the loop for the character c at input offset i: the switch
   * on c, writing to the buffer and updating j, prev_last_slash and
   * last_slash as Step does.
   */
  method PathStep(result: array<char>, j0: nat, prev0: int, last0: int, cprev: char, i: nat, c: char, ghost st: PState)
    returns (j: nat, prevLastSlash: int, lastSlash: int)
    requires Agrees(result[..], j0, prev0, last0, cprev, st) && j0 <= i < result.Length
    modifies result
    ensures j <= i + 1
    ensures Agrees(result[..], j, prevLastSlash, lastSlash, c, Step(st, i, c))
  {
    j, prevLastSlash, lastSlash := j0, prev0, last0;
    if c == '/' {
      if cprev == '/' || j == 0 {
      } else {
        result[j] := c;
        j := j + 1;
        prevLastSlash := lastSlash;
        lastSlash := i;
        assert result[..j] == st.out + [c];
      }
    } else if c == '.' {
      if cprev == '.' {
        var start := 0;
        if prevLastSlash > 0 {
          start := prevLastSlash;
        }
        j := CutBack(result, j, start, st.out);
      } else {
        result[j] := c;
        j := j + 1;
        assert result[..j] == st.out + [c];
      }
    } else {
      result[j] := c;
      j := j + 1;
      assert result[..j] == st.out + [c];
    }
  }

  /**
   * canonicalize_filename(str).  A NULL argument gives NULL.  Otherwise the
   * loop reads the characters before the NUL, at most MAX_PATH_SIZE of them,
   * each one Step, and the result is the strndup of the buffer: the path
   * Canon gives for the characters read.  The caller's buffer must hold a
   * NUL or be at least MAX_PATH_SIZE long, as the C loop reads up to there.
   */
  method Canonicalize(str: array?<char>) returns (r: Option<string>)
    requires str != null ==> |CStr(str[..])| < str.Length || MAX_PATH_SIZE <= str.Length
    ensures str == null <==> r.None?
    ensures str != null ==> r == Some(Canon(Input(str[..])))
  {
    if str == null {
      return None;
    }
    ghost var s := Input(str[..]);
    var prevLastSlash: int := -1;
    var lastSlash: int := -1;
    var i: nat := 0;
    var j: nat := 0;
    var cprev := '\0';
    var result := new char[MAX_PATH_SIZE](_ => '\0');
    ghost var st := Init;
    assert result[..0] == [];
    while i < MAX_PATH_SIZE && str[i] != '\0'
      invariant i <= |s| && j <= i
      invariant st == Run(Init, s[..i], 0)
      invariant Agrees(result[..], j, prevLastSlash, lastSlash, cprev, st)
    {
      NextInput(str[..], i);
      var c := str[i];
      RunPrefix(s, i);
      j, prevLastSlash, lastSlash := PathStep(result, j, prevLastSlash, lastSlash, cprev, i, c, st);
      st := Step(st, i, c);
      cprev := c;
      i := i + 1;
    }
    EndOfInput(str[..], i);
    assert s[..i] == s;
    StrNDupOfHeld(result[..], st.out, MAX_PATH_SIZE - 1);
    r := Some(StrNDup(result[..], MAX_PATH_SIZE - 1));
  }

  /** The state after the first i + 1 characters is one Step past the state after the first i. */
  lemma RunPrefix(s: string, i: nat)
    requires i < |s|
    ensures Run(Init, s[..i + 1], 0) == Step(Run(Init, s[..i], 0), i, s[i])
  {
    assert s[..i + 1] == s[..i] + [s[i]];
    RunSnoc(Init, s[..i], s[i], 0);
  }

  /** Inside the loop, the character at i is the next input character. */
  lemma NextInput(buf: seq<char>, i: nat)
    requires i < MAX_PATH_SIZE && i <= |Input(buf)|
    requires |CStr(buf)| < |buf| || MAX_PATH_SIZE <= |buf|
    ensures i < |buf|
    ensures buf[i] != '\0' ==> i < |Input(buf)| && Input(buf)[i] == buf[i]
  {
  }

  /** When the loop stops, it has read all of the input. */
  lemma EndOfInput(buf: seq<char>, i: nat)
    requires i <= |Input(buf)|
    requires |CStr(buf)| < |buf| || MAX_PATH_SIZE <= |buf|
    requires !(i < MAX_PATH_SIZE && buf[i] != '\0')
    ensures i == |Input(buf)|
  {
  }

  // ---------------------------------------------------------------------
  // What the walk computes.  Without "..", it is the independent slash
  // normalisation Squeeze; a leading "../" is dropped; "a/b/.." with plain
  // segments a and b cuts back to a.
  // ---------------------------------------------------------------------

  /** No two consecutive dots. */
  predicate NoDotDot(t: string)
  {
    forall k :: 0 <= k < |t| - 1 ==> !(t[k] == '.' && t[k + 1] == '.')
  }

  /** No slash. */
  predicate NoSlash(t: string)
  {
    forall k :: 0 <= k < |t| ==> t[k] != '/'
  }

  /** t with its leading slashes removed. */
  function DropLead(t: string): (r: string)
    ensures r == [] || r[0] != '/'
    ensures |r| <= |t| && r == t[|t| - |r|..]
  {
    if t != [] && t[0] == '/' then DropLead(t[1..]) else t
  }

  /** t with every run of slashes written as one slash. */
  function Keep(t: string): (r: string)
    ensures |r| <= |t| && (r == [] <==> t == [])
    ensures t != [] ==> r[0] == t[0]
  {
    if t == [] then []
    else if |t| > 1 && t[0] == '/' && t[1] == '/' then Keep(t[1..])
    else [t[0]] + Keep(t[1..])
  }

  /** The normalised path: leading slashes dropped and slash runs collapsed. */
  function Squeeze(t: string): string
  {
    Keep(DropLead(t))
  }

  /** Collapsing runs, one more character at the end: a slash after a slash adds nothing. */
  lemma {:induction false} KeepSnoc(t: string, c: char)
    ensures Keep(t + [c]) == if c == '/' && t != [] && t[|t| - 1] == '/' then Keep(t) else Keep(t) + [c]
    decreases |t|
  {
    if t != [] {
      var u := t[1..];
      assert (t + [c])[1..] == u + [c];
      if u == [] {
        assert t == [t[0]];
      } else {
        KeepSnoc(u, c);
        assert t[|t| - 1] == u[|u| - 1];
      }
    }
  }

  /** Dropping leading slashes, one more character at the end. */
  lemma {:induction false} DropLeadSnoc(t: string, c: char)
    ensures DropLead(t + [c]) == Push(DropLead(t), c)
    decreases |t|
  {
    if t != [] && t[0] == '/' {
      assert (t + [c])[1..] == t[1..] + [c];
      DropLeadSnoc(t[1..], c);
    }
  }

  /** A plain text has no run to collapse. */
  lemma {:induction false} KeepOfPlain(t: string)
    requires NoSlash(t)
    ensures Keep(t) == t
  {
    if t != [] {
      KeepOfPlain(t[1..]);
      assert t == [t[0]] + t[1..];
    }
  }

  /** The slash-dropped text with one more character. */
  function Push(d: string, c: char): string
  {
    if d == [] && c == '/' then [] else d + [c]
  }

  /**
   * The state st has written the normalisation of the text d (leading
   * slashes already dropped), and its cprev is a slash exactly when d ends
   * in one.
   */
  predicate Rel(st: PState, d: string)
  {
    (d == [] || d[0] != '/') && st.out == Keep(d) &&
    (d != [] ==> (st.cprev == '/' <==> d[|d| - 1] == '/'))
  }

  /** A character that does not complete a ".." keeps the relation. */
  lemma StepRel(st: PState, d: string, i: int, c: char)
    requires Rel(st, d) && !(c == '.' && st.cprev == '.')
    ensures Rel(Step(st, i, c), Push(d, c))
  {
    KeepSnoc(d, c);
  }

  /** Text without "..", read from a state related to d, leaves the state related to d followed by the text. */
  lemma {:induction false} RunRel(st: PState, d: string, t: string, base: int)
    requires Rel(st, d) && NoDotDot(t)
    requires t != [] && t[0] == '.' ==> st.cprev != '.'
    ensures Rel(Run(st, t, base), DropLead(d + t))
    decreases |t|
  {
    if t == [] {
      assert d + t == d;
    } else {
      NoDotDotFront(t);
      RunRel(st, d, t[..|t| - 1], base);
      RunRelStep(st, d, t, base);
    }
  }

  /** The last character of a text without "..", after the rest of it kept the relation. */
  lemma RunRelStep(st: PState, d: string, t: string, base: int)
    requires t != [] && NoDotDot(t)
    requires |t| == 1 && t[0] == '.' ==> st.cprev != '.'
    requires Rel(Run(st, t[..|t| - 1], base), DropLead(d + t[..|t| - 1]))
    ensures Rel(Run(st, t, base), DropLead(d + t))
  {
    var t' := t[..|t| - 1];
    var c := t[|t| - 1];
    LastNotDotDot(st, t, base);
    SnocParts(d, t);
    DropLeadSnoc(d + t', c);
    StepRelAt(Run(st, t', base), DropLead(d + t'), base + |t| - 1, c, Run(st, t, base), DropLead(d + t));
  }

  /** The text d + t is d + t without its last character, followed by that character. */
  lemma SnocParts(d: string, t: string)
    requires t != []
    ensures d + t == (d + t[..|t| - 1]) + [t[|t| - 1]]
  {
  }

  /** StepRel, with the stepped state and the pushed text given by name. */
  lemma StepRelAt(st: PState, d: string, i: int, c: char, q: PState, e: string)
    requires Rel(st, d) && !(c == '.' && st.cprev == '.')
    requires q == Step(st, i, c) && e == Push(d, c)
    ensures Rel(q, e)
  {
    StepRel(st, d, i, c);
  }

  /** The last character of a text without ".." does not complete one after the rest of it. */
  lemma LastNotDotDot(st: PState, t: string, base: int)
    requires t != [] && NoDotDot(t)
    requires |t| == 1 && t[0] == '.' ==> st.cprev != '.'
    ensures !(t[|t| - 1] == '.' && Run(st, t[..|t| - 1], base).cprev == '.')
  {
    if |t| > 1 {
      assert Run(st, t[..|t| - 1], base).cprev == t[|t| - 2];
    }
  }

  /** Dropping the last character keeps a text free of "..". */
  lemma NoDotDotFront(t: string)
    requires t != [] && NoDotDot(t)
    ensures NoDotDot(t[..|t| - 1])
  {
    var t' := t[..|t| - 1];
    forall k | 0 <= k < |t'| - 1
      ensures !(t'[k] == '.' && t'[k + 1] == '.')
    {
      assert t'[k] == t[k] && t'[k + 1] == t[k + 1];
    }
  }

  /** With no "..", the path is the input with leading slashes dropped and slash runs collapsed. */
  lemma NoDotDotSqueezes(s: string)
    requires NoDotDot(s)
    ensures Run(Init, s, 0).out == Squeeze(s)
  {
    assert [] + s == s;
    RunRel(Init, [], s, 0);
  }

  /** Text with no slash and no "..", read after anything but a dot (when it starts with one), is written as it stands. */
  lemma {:induction false} RunPlain(st: PState, t: string, base: int)
    requires NoSlash(t) && NoDotDot(t)
    requires t != [] && t[0] == '.' ==> st.cprev != '.'
    ensures Run(st, t, base) == st.(out := st.out + t, cprev := if t == [] then st.cprev else t[|t| - 1])
    decreases |t|
  {
    if t == [] {
      assert st.out + t == st.out;
    } else {
      var t' := t[..|t| - 1];
      NoDotDotFront(t);
      RunPlain(st, t', base);
      if t' != [] {
        assert Run(st, t', base).cprev == t[|t| - 2];
      }
      assert t == t' + [t[|t| - 1]];
      Assoc(st.out, t', [t[|t| - 1]]);
    }
  }

  /** No two consecutive slashes. */
  predicate NoDoubleSlash(t: string)
  {
    forall k :: 0 <= k < |t| - 1 ==> !(t[k] == '/' && t[k + 1] == '/')
  }

  /** A text without a slash run is kept as it is. */
  lemma {:induction false} KeepOfSingle(t: string)
    requires NoDoubleSlash(t)
    ensures Keep(t) == t
  {
    if t != [] {
      assert NoDoubleSlash(t[1..]) by {
        forall k | 0 <= k < |t[1..]| - 1
          ensures !(t[1..][k] == '/' && t[1..][k + 1] == '/')
        {
          assert t[1..][k] == t[k + 1] && t[1..][k + 1] == t[k + 2];
        }
      }
      KeepOfSingle(t[1..]);
      assert t == [t[0]] + t[1..];
    }
  }

  /** A path already in normal form (no leading slash, no slash run, no "..", within the buffer) is returned unchanged. */
  lemma NormalUnchanged(s: string)
    requires (s == [] || s[0] != '/') && NoDoubleSlash(s) && NoDotDot(s) && |s| < MAX_PATH_SIZE
    ensures Canon(s) == s
  {
    NoDotDotSqueezes(s);
    KeepOfSingle(s);
  }

  /** n copies of "../". */
  function Ups(n: nat): (r: string)
    ensures |r| == 3 * n
  {
    if n == 0 then [] else Ups(n - 1) + "../"
  }

  /** The state after one or more "../": nothing written, no slash remembered, cprev a slash. */
  const AfterUps: PState := PState([], -1, -1, '/')

  /** "../", read from a state with nothing written and no slash remembered, leaves AfterUps. */
  lemma RunUp(st: PState, base: int)
    requires st.out == [] && st.prev == -1 && st.last == -1 && st.cprev != '.'
    ensures Run(st, "../", base) == AfterUps
  {
    var u := "../";
    assert u[..2] == ".." && u[..2][..1] == "." && u[..2][..1][..0] == [];
    var s1 := Step(st, base, '.');
    assert Run(st, ".", base) == s1;
    assert Run(st, "..", base) == Step(s1, base + 1, '.');
  }

  /** Any number of leading "../" leave the state AfterUps. */
  lemma {:induction false} RunUps(n: nat)
    requires n > 0
    ensures Run(Init, Ups(n), 0) == AfterUps
  {
    if n == 1 {
      assert Ups(1) == [] + "../" == "../";
      RunUp(Init, 0);
    } else {
      RunUps(n - 1);
      RunAppend(Init, Ups(n - 1), "../", 0);
      RunUp(AfterUps, 3 * (n - 1));
    }
  }

  /** Inputs whose walks write the same output canonicalize alike. */
  lemma SameOut(s1: string, s2: string)
    requires Run(Init, s1, 0).out == Run(Init, s2, 0).out
    ensures Canon(s1) == Canon(s2)
  {
  }

  /** Leading "../" are dropped: "../x" and "../../x" canonicalize as "x" (the ".." of an empty output clears it). */
  lemma UpsDropped(n: nat, s: string)
    requires NoDotDot(s)
    ensures Canon(Ups(n) + s) == Canon(s)
  {
    if n > 0 {
      var u := Ups(n);
      RunAppend(Init, u, s, 0);
      RunUps(n);
      var base := 0 + |u|;
      assert Run(Init, u + s, 0) == Run(AfterUps, s, base);
      assert [] + s == s;
      RunRel(AfterUps, [], s, base);
      var d := DropLead([] + s);
      assert d == DropLead(s);
      assert Run(AfterUps, s, base).out == Keep(d);
      NoDotDotSqueezes(s);
      SameOut(u + s, s);
    } else {
      assert Ups(n) + s == s;
    }
  }

  /** Two texts without "..", the second not starting with a dot, join without "..". */
  lemma NoDotDotJoin(a: string, c: string)
    requires NoDotDot(a) && NoDotDot(c) && (c == [] || c[0] != '.')
    ensures NoDotDot(a + c)
  {
    forall k | 0 <= k < |a + c| - 1
      ensures !((a + c)[k] == '.' && (a + c)[k + 1] == '.')
    {
      if k + 1 < |a| {
        assert (a + c)[k] == a[k] && (a + c)[k + 1] == a[k + 1];
      } else if k + 1 == |a| {
        assert (a + c)[k + 1] == c[0];
      } else {
        assert (a + c)[k] == c[k - |a|] && (a + c)[k + 1] == c[k + 1 - |a|];
      }
    }
  }

  /** A plain segment a, then a slash: a and its slash are written, the slash remembered at offset |a|. */
  lemma AfterFirstSlash(a: string)
    requires a != [] && NoSlash(a) && NoDotDot(a)
    ensures Run(Init, a + "/", 0) == PState(a + "/", -1, |a|, '/')
  {
    RunPlain(Init, a, 0);
    RunSnoc(Init, a, '/', 0);
    assert a + "/" == a + ['/'];
  }

  /** Then a plain segment b and a slash: the first slash becomes prev_last_slash. */
  lemma AfterSecondSlash(a: string, b: string)
    requires a != [] && NoSlash(a) && NoDotDot(a)
    requires b != [] && NoSlash(b) && NoDotDot(b)
    ensures Run(Init, a + "/" + b + "/", 0) == PState(a + "/" + b + "/", |a|, |a| + 1 + |b|, '/')
  {
    var w1 := a + "/";
    var w2 := w1 + b;
    AfterFirstSlash(a);
    var s2 := PState(w1, -1, |a|, '/');
    RunAppend(Init, w1, b, 0);
    RunPlain(s2, b, |w1|);
    var s3 := PState(w2, -1, |a|, b[|b| - 1]);
    assert Run(Init, w2, 0) == s3;
    RunSnoc(Init, w2, '/', 0);
    assert Step(s3, |w2|, '/') == PState(w2 + ['/'], |a|, |w2|, '/');
    assert w2 + "/" == w2 + ['/'];
  }

  /** Regrouping a concatenation. */
  lemma Assoc(x: string, y: string, z: string)
    ensures (x + y) + z == x + (y + z)
  {
  }

  /** The front of a concatenation. */
  lemma TakeFront(x: string, y: string)
    ensures (x + y)[..|x|] == x
  {
  }

  /** "/.." spelled character by character. */
  lemma SlashDotDot(x: string)
    ensures x + "/" + ['.'] + ['.'] == x + "/.."
  {
    Assoc(x + "/", ['.'], ['.']);
    Assoc(x, "/", ['.'] + ['.']);
    assert "/" + (['.'] + ['.']) == "/..";
    Assoc(x, "/", ['.']);
  }

  /** Then "..": the output is cut back to |a| characters, which is a. */
  lemma AfterSegment(a: string, b: string)
    requires a != [] && NoSlash(a) && NoDotDot(a)
    requires b != [] && NoSlash(b) && NoDotDot(b)
    ensures Run(Init, a + "/" + b + "/..", 0) == PState(a, |a|, |a| + 1 + |b|, '.')
  {
    var w2 := a + "/" + b;
    var w3 := w2 + "/";
    var w4 := w3 + ['.'];
    var w5 := w4 + ['.'];
    AfterSecondSlash(a, b);
    var s4 := PState(w3, |a|, |a| + 1 + |b|, '/');
    RunSnoc(Init, w3, '.', 0);
    var s5 := PState(w4, |a|, |a| + 1 + |b|, '.');
    assert Step(s4, |w3|, '.') == s5;
    RunSnoc(Init, w4, '.', 0);
    Assoc(a, "/", b);
    Assoc(a, "/" + b, "/");
    Assoc(a, "/" + b + "/", ['.']);
    TakeFront(a, "/" + b + "/" + ['.']);
    assert w4[..|a|] == a;
    assert Step(s5, |w4|, '.') == PState(a, |a|, |a| + 1 + |b|, '.');
    SlashDotDot(w2);
  }

  /**
   * With plain segments a and b (no slash, no "..") at the front, "a/b/.."
   * cuts back to "a", since the remembered offset of the slash after a is
   * also its place in the output: "a/b/../c" canonicalizes as "a/c".
   */
  lemma SegmentRemoved(a: string, b: string, c: string)
    requires a != [] && b != [] && NoSlash(a) && NoSlash(b) && NoDotDot(a) && NoDotDot(b)
    requires NoDotDot(c) && (c == [] || c[0] != '.')
    ensures Canon(a + "/" + b + "/.." + c) == Canon(a + c)
  {
    var w := a + "/" + b + "/..";
    AfterSegment(a, b);
    var st := PState(a, |a|, |a| + 1 + |b|, '.');
    RunAppend(Init, w, c, 0);
    assert Run(Init, w + c, 0) == Run(st, c, |w|);
    KeepOfPlain(a);
    assert Rel(st, a);
    RunRel(st, a, c, |w|);
    assert (a + c)[0] == a[0];
    assert DropLead(a + c) == a + c;
    NoDotDotJoin(a, c);
    NoDotDotSqueezes(a + c);
    SameOut(w + c, a + c);
  }
}
