/**
 * The parts of Go's `strings` package the address discovery uses, on strings
 * seen as sequences of Unicode characters.
 */
module Strings {

  /** Go's unicode.IsSpace: the Latin-1 spaces and the Unicode White_Space property. */
  predicate IsSpace(c: char)
  {
    c == '\t' || c == '\n' || c == '\U{000B}' || c == '\U{000C}' || c == '\r' || c == ' '
    || c == '\U{0085}' || c == '\U{00A0}' || c == '\U{1680}'
    || ('\U{2000}' <= c <= '\U{200A}')
    || c == '\U{2028}' || c == '\U{2029}' || c == '\U{202F}' || c == '\U{205F}' || c == '\U{3000}'
  }

  function TrimLeft(s: string): (r: string)
    ensures |r| <= |s|
  {
    if s != [] && IsSpace(s[0]) then TrimLeft(s[1..]) else s
  }

  function TrimRight(s: string): (r: string)
    ensures |r| <= |s|
  {
    if s != [] && IsSpace(s[|s| - 1]) then TrimRight(s[..|s| - 1]) else s
  }

  /** Go's strings.TrimSpace: drop leading and trailing white space. */
  function TrimSpace(s: string): (r: string)
    ensures |r| <= |s|
  {
    TrimRight(TrimLeft(s))
  }

  /** Every character of `t` is white space. */
  predicate AllSpace(t: string)
  {
    forall k :: 0 <= k < |t| ==> IsSpace(t[k])
  }

  /** TrimLeft drops exactly the leading white space. */
  lemma {:induction false} TrimLeftDrops(s: string)
    ensures TrimLeft(s) == s[|s| - |TrimLeft(s)|..]
    ensures AllSpace(s[..|s| - |TrimLeft(s)|])
    ensures TrimLeft(s) == [] || !IsSpace(TrimLeft(s)[0])
  {
    if s != [] && IsSpace(s[0]) {
      TrimLeftDrops(s[1..]);
      var i := |s| - |TrimLeft(s)|;
      assert s[..i] == [s[0]] + s[1..][..i - 1];
    }
  }

  /** TrimRight drops exactly the trailing white space. */
  lemma {:induction false} TrimRightDrops(s: string)
    ensures TrimRight(s) == s[..|TrimRight(s)|]
    ensures AllSpace(s[|TrimRight(s)|..])
    ensures TrimRight(s) == [] || !IsSpace(TrimRight(s)[|TrimRight(s)| - 1])
  {
    if s != [] && IsSpace(s[|s| - 1]) {
      var init := s[..|s| - 1];
      TrimRightDrops(init);
      var j := |TrimRight(s)|;
      assert s[j..] == init[j..] + [s[|s| - 1]];
    }
  }

  /** TrimSpace keeps a contiguous middle of `s`, and everything it drops is white space. */
  lemma TrimSpaceTrims(s: string)
    ensures exists i, j ::
      && 0 <= i <= j <= |s| && TrimSpace(s) == s[i..j]
      && AllSpace(s[..i]) && AllSpace(s[j..])
  {
    var l := TrimLeft(s);
    TrimLeftDrops(s);
    var i := |s| - |l|;
    var r := TrimRight(l);
    TrimRightDrops(l);
    var j := i + |r|;
    assert TrimSpace(s) == s[i..j] by {
      assert l == s[i..] && r == l[..|r|];
    }
    assert s[j..] == l[|r|..];
  }

  /** What TrimSpace keeps starts and ends with a non-space character, unless it is empty. */
  lemma TrimSpaceEnds(s: string)
    ensures TrimSpace(s) == [] || (!IsSpace(TrimSpace(s)[0]) && !IsSpace(TrimSpace(s)[|TrimSpace(s)| - 1]))
  {
    var l := TrimLeft(s);
    TrimLeftDrops(s);
    TrimRightDrops(l);
    var r := TrimRight(l);
    if r != [] {
      assert r[0] == l[0];
    }
  }

  /**
   * Go's strings.Split with a one-character separator: the pieces between
   * separators, so there is always one more piece than separators.
   */
  function Split(s: string, sep: char): (parts: seq<string>)
    ensures |parts| >= 1
    ensures forall p :: p in parts ==> sep !in p
  {
    if s == [] then [""]
    else if s[0] == sep then [""] + Split(s[1..], sep)
    else
      var rest := Split(s[1..], sep);
      [[s[0]] + rest[0]] + rest[1..]
  }

  /** Go's strings.Join with a one-character separator. */
  function Join(parts: seq<string>, sep: char): string
  {
    if parts == [] then []
    else if |parts| == 1 then parts[0]
    else parts[0] + [sep] + Join(parts[1..], sep)
  }

  /** The pieces cover the input: joining them with the separator gives it back. */
  lemma {:induction false} JoinSplit(s: string, sep: char)
    ensures Join(Split(s, sep), sep) == s
  {
    if s != [] {
      var rest := Split(s[1..], sep);
      JoinSplit(s[1..], sep);
      if s[0] == sep {
        assert ([""] + rest)[1..] == rest;
        assert [s[0]] + s[1..] == s;
      } else {
        var parts := [[s[0]] + rest[0]] + rest[1..];
        assert parts[1..] == rest[1..];
        assert Join(parts, sep) == [s[0]] + Join(rest, sep) by {
          if |rest| > 1 {
            var tail := Join(rest[1..], sep);
            assert ([s[0]] + rest[0]) + [sep] + tail == [s[0]] + (rest[0] + [sep] + tail);
          }
        }
        assert [s[0]] + s[1..] == s;
      }
    }
  }

  lemma {:induction false} SplitWithoutSeparator(x: string, sep: char)
    requires sep !in x
    ensures Split(x, sep) == [x]
  {
    if x != [] {
      assert x[0] != sep && sep !in x[1..];
      SplitWithoutSeparator(x[1..], sep);
      assert [x[0]] + x[1..] == x;
    }
  }

  /** Splitting at the first separator takes the text before it as the first piece. */
  lemma {:induction false} SplitAtFirst(x: string, y: string, sep: char)
    requires sep !in x
    ensures Split(x + [sep] + y, sep) == [x] + Split(y, sep)
  {
    if x == [] {
      assert x + [sep] + y == [sep] + y;
    } else {
      var s := x + [sep] + y;
      assert s[0] == x[0] != sep && s[1..] == x[1..] + [sep] + y;
      SplitAtFirst(x[1..], y, sep);
      assert [x[0]] + x[1..] == x;
    }
  }

  /** The leading run of non-space characters of `s`. */
  function Word(s: string): (w: string)
    ensures |w| <= |s| && w == s[..|w|]
    ensures forall c :: c in w ==> !IsSpace(c)
    ensures |w| < |s| ==> IsSpace(s[|w|])
    ensures s != [] && !IsSpace(s[0]) ==> IsWord(w)
  {
    if s == [] || IsSpace(s[0]) then [] else [s[0]] + Word(s[1..])
  }

  /** A non-empty run of non-space characters. */
  predicate IsWord(f: string)
  {
    f != [] && forall c :: c in f ==> !IsSpace(c)
  }

  /** Go's strings.Fields: the maximal runs of non-space characters, in order. */
  function Fields(s: string): (fs: seq<string>)
    ensures |fs| <= |s|
    decreases |s|
  {
    if s == [] then []
    else if IsSpace(s[0]) then Fields(s[1..])
    else
      var w := Word(s);
      [w] + Fields(s[|w|..])
  }

  /** Every field is a non-empty run of non-space characters. */
  lemma {:induction false} FieldsAreWords(s: string)
    ensures forall i :: 0 <= i < |Fields(s)| ==> IsWord(Fields(s)[i])
    decreases |s|
  {
    if s != [] {
      if IsSpace(s[0]) {
        FieldsAreWords(s[1..]);
      } else {
        var w := Word(s);
        FieldsAreWords(s[|w|..]);
        assert Fields(s) == [w] + Fields(s[|w|..]);
      }
    }
  }

  /** Go's `strings.Index(s, sub) != -1`: `sub` occurs somewhere in `s`. */
  predicate Contains(s: string, sub: string)
  {
    exists k | 0 <= k <= |s| :: OccursAt(s, sub, k)
  }

  predicate OccursAt(s: string, sub: string, k: int)
  {
    0 <= k <= |s| - |sub| && s[k..k + |sub|] == sub
  }
}
