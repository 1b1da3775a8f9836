/**
 * Stand-in for the `lookup` crate's `LookupBuf` / `SegmentBuf`: a path is a
 * sequence of segments addressing into nested objects and arrays; the root
 * path is the empty sequence.
 */
module Lookup {

  /** A field name, a coalesce of candidate field names, or an array index
      (a negative index counts from the end of the array). */
  datatype Segment = Field(name: string) | Coalesce(names: seq<string>) | Index(index: int)

  type Path = seq<Segment>

  /** Every coalesce segment offers at least one candidate (the grammar guarantees it). */
  predicate WellFormed(p: Path)
  {
    forall i :: 0 <= i < |p| && p[i].Coalesce? ==> p[i].names != []
  }

  predicate NoCoalesce(p: Path)
  {
    forall i :: 0 <= i < |p| ==> !p[i].Coalesce?
  }

  function DigitChar(d: nat): char
    requires d < 10
  {
    "0123456789"[d]
  }

  /** Decimal rendering of a natural number. */
  function NatString(n: nat): (s: string)
    ensures |s| >= 1
  {
    if n < 10 then [DigitChar(n)] else NatString(n / 10) + [DigitChar(n % 10)]
  }

  /** Decimal rendering of an integer, as `format!("{}", i)` writes it. */
  function IntString(i: int): string
  {
    if i < 0 then "-" + NatString(-i) else NatString(i)
  }

  function Join(parts: seq<string>, sep: string): string
  {
    if |parts| == 0 then ""
    else if |parts| == 1 then parts[0]
    else parts[0] + sep + Join(parts[1..], sep)
  }

  /** `SegmentBuf`'s `Display` for a field (the bare name) or a coalesce
      (the candidates in parentheses). */
  function SegmentString(s: Segment): string
    requires !s.Index?
  {
    if s.Field? then s.name else "(" + Join(s.names, " | ") + ")"
  }

  /** The text a segment's span covers: the bracketed index `[i]`, or the
      field or coalesce as `SegmentBuf` displays it. */
  function SegmentLabel(s: Segment): string
  {
    if s.Index? then "[" + IntString(s.index) + "]" else SegmentString(s)
  }

  /** The source text one segment occupies after its parent: `.name` for a
      field or coalesce, `[i]` for an index. */
  function SegmentText(s: Segment): (r: string)
    ensures |r| >= 1 && r[0] == (if s.Index? then '[' else '.')
  {
    if s.Index? then SegmentLabel(s) else "." + SegmentLabel(s)
  }

  /** The source text of a whole path, segment after segment. */
  function PathText(p: Path): string
  {
    if p == [] then "" else SegmentText(p[0]) + PathText(p[1..])
  }

  /** Rendering distributes over path concatenation. */
  lemma {:induction false} PathTextAppend(a: Path, b: Path)
    ensures PathText(a + b) == PathText(a) + PathText(b)
  {
    if a == [] {
      assert a + b == b;
    } else {
      assert (a + b)[1..] == a[1..] + b;
      PathTextAppend(a[1..], b);
    }
  }

  /** Rendering of the suffix starting at `i` is the segment at `i` followed by the rest. */
  lemma PathTextSuffix(p: Path, i: nat)
    requires i < |p|
    ensures PathText(p[i..]) == SegmentText(p[i]) + PathText(p[i + 1..])
  {
    assert p[i..][1..] == p[i + 1..];
  }

  /** Splitting a path splits its text. */
  lemma PathTextSplit(p: Path, k: nat)
    requires k <= |p|
    ensures PathText(p[..k]) + PathText(p[k..]) == PathText(p)
  {
    var a, b := p[..k], p[k..];
    calc {
      PathText(p);
      { assert p == a + b; }
      PathText(a + b);
      { PathTextAppend(a, b); }
      PathText(a) + PathText(b);
    }
  }

  /** `LookupBuf`'s `Display`: the path text without its leading `.`
      (`a.b[1]`), which callers prefix with `.` or an identifier. */
  function PathDisplay(p: Path): string
  {
    var s := PathText(p);
    if |s| > 0 && s[0] == '.' then s[1..] else s
  }

  /** A non-empty prefix takes the display's missing `.`; the rest of the
      path keeps its text. */
  lemma PathDisplayAppend(a: Path, b: Path)
    requires a != []
    ensures PathDisplay(a + b) == PathDisplay(a) + PathText(b)
  {
    PathTextAppend(a, b);
    var s, t := PathText(a), PathText(b);
    assert s == SegmentText(a[0]) + PathText(a[1..]);
    assert |s| >= 1 && (s + t)[0] == s[0];
    if s[0] == '.' {
      assert PathDisplay(a + b) == (s + t)[1..] == s[1..] + t;
    } else {
      assert PathDisplay(a + b) == s + t;
    }
  }

  // ---------------------------------------------------------------------------
  // Byte lengths

  /** The number of bytes a character takes in UTF-8. */
  function CharBytes(c: char): nat
  {
    if c as int < 0x80 then 1 else if c as int < 0x800 then 2 else if c as int < 0x1_0000 then 3 else 4
  }

  /** `str::len`: the length of a string in UTF-8 bytes. */
  function Utf8Len(s: string): (n: nat)
    ensures |s| <= n <= 4 * |s|
  {
    if s == [] then 0 else CharBytes(s[0]) + Utf8Len(s[1..])
  }

  /** Byte lengths add up over concatenation. */
  lemma {:induction false} Utf8LenAppend(a: string, b: string)
    ensures Utf8Len(a + b) == Utf8Len(a) + Utf8Len(b)
  {
    if a == [] {
      assert a + b == b;
    } else {
      assert (a + b)[1..] == a[1..] + b;
      Utf8LenAppend(a[1..], b);
    }
  }

  /** An ASCII string takes one byte per character. */
  lemma {:induction false} AsciiLen(s: string)
    requires forall i :: 0 <= i < |s| ==> s[i] as int < 0x80
    ensures Utf8Len(s) == |s|
  {
    if s != [] {
      AsciiLen(s[1..]);
    }
  }
}
