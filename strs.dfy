/**
  The three string helpers of Go's `strings` package that the program relies on:
  `Split` and `Join` with a one-character separator, and `Trim` with the cutset "\n".
 */
module Strs {

  /** Number of occurrences of `c` in `s`. */
  function Count(s: string, c: char): nat
  {
    if s == [] then 0 else (if s[0] == c then 1 else 0) + Count(s[1..], c)
  }

  /**
    Go's `strings.Split(s, sep)` for a one-character separator: the pieces between
    separators, so an empty input yields one empty piece and a trailing separator
    yields a trailing empty piece.
   */
  function Split(s: string, sep: char): (parts: seq<string>)
    ensures |parts| == Count(s, sep) + 1
    ensures forall i :: 0 <= i < |parts| ==> sep !in parts[i]
    decreases |s|
  {
    if s == [] then [""]
    else if s[0] == sep then [""] + Split(s[1..], sep)
    else
      var rest := Split(s[1..], sep);
      [[s[0]] + rest[0]] + rest[1..]
  }

  /** Go's `strings.Join(parts, sep)`. */
  function Join(parts: seq<string>, sep: char): string
    decreases |parts|
  {
    if parts == [] then ""
    else if |parts| == 1 then parts[0]
    else parts[0] + [sep] + Join(parts[1..], sep)
  }

  /** Joining the pieces of a split gives back the original string. */
  lemma {:induction false} JoinSplit(s: string, sep: char)
    ensures Join(Split(s, sep), sep) == s
    decreases |s|
  {
    if s == [] {
    } else if s[0] == sep {
      JoinSplit(s[1..], sep);
      assert s == [sep] + s[1..];
    } else {
      JoinSplit(s[1..], sep);
      var rest := Split(s[1..], sep);
      if |rest| == 1 {
        assert s == [s[0]] + s[1..];
      } else {
        assert Join(rest, sep) == rest[0] + [sep] + Join(rest[1..], sep);
        assert s == [s[0]] + s[1..];
      }
    }
  }

  /** A leading piece free of the separator splits off as one piece. */
  lemma {:induction false} SplitPrefix(x: string, sep: char, rest: string)
    requires sep !in x
    ensures Split(x + [sep] + rest, sep) == [x] + Split(rest, sep)
    decreases |x|
  {
    if x == [] {
      assert x + [sep] + rest == [sep] + rest;
    } else {
      SplitPrefix(x[1..], sep, rest);
      assert (x + [sep] + rest)[1..] == x[1..] + [sep] + rest;
      assert [x[0]] + x[1..] == x;
    }
  }

  /** Splitting a join of separator-free pieces gives the pieces back. */
  lemma {:induction false} SplitJoin(parts: seq<string>, sep: char)
    requires |parts| >= 1
    requires forall i :: 0 <= i < |parts| ==> sep !in parts[i]
    ensures Split(Join(parts, sep), sep) == parts
    decreases |parts|
  {
    if |parts| == 1 {
      SplitNoSep(parts[0], sep);
    } else {
      SplitJoin(parts[1..], sep);
      SplitPrefix(parts[0], sep, Join(parts[1..], sep));
      assert [parts[0]] + parts[1..] == parts;
    }
  }

  /** A string without the separator is one piece. */
  lemma {:induction false} SplitNoSep(x: string, sep: char)
    requires sep !in x
    ensures Split(x, sep) == [x]
    decreases |x|
  {
    if x != [] {
      SplitNoSep(x[1..], sep);
      assert [x[0]] + x[1..] == x;
    }
  }

  function TrimLeft(s: string): string
    decreases |s|
  {
    if s != [] && s[0] == '\n' then TrimLeft(s[1..]) else s
  }

  function TrimRight(s: string): string
    decreases |s|
  {
    if s != [] && s[|s| - 1] == '\n' then TrimRight(s[..|s| - 1]) else s
  }

  /** A string made of newlines only. */
  predicate AllNewlines(s: string)
  {
    forall k :: 0 <= k < |s| ==> s[k] == '\n'
  }

  /**
    Go's `strings.Trim(s, "\n")`: every leading and every trailing newline removed and
    nothing else. The result is the slice of `s` left once a run of newlines is cut from
    each end, and it neither starts nor ends with a newline.
   */
  function TrimNewlines(s: string): (t: string)
    ensures t == [] || (t[0] != '\n' && t[|t| - 1] != '\n')
    ensures exists i, j :: 0 <= i <= j <= |s| && t == s[i..j] && AllNewlines(s[..i]) && AllNewlines(s[j..])
  {
    TrimSlice(s);
    TrimRight(TrimLeft(s))
  }

  lemma {:induction false} TrimSlice(s: string)
    ensures var t := TrimRight(TrimLeft(s));
      (t == [] || (t[0] != '\n' && t[|t| - 1] != '\n')) &&
      exists i, j :: 0 <= i <= j <= |s| && t == s[i..j] && AllNewlines(s[..i]) && AllNewlines(s[j..])
  {
    var l, i := TrimLeftSlice(s);
    var j := TrimRightSlice(l);
    assert TrimRight(l) == s[i..][..j] == s[i..i + j];
    assert s[i + j..] == l[j..];
  }

  lemma {:induction false} TrimLeftSlice(s: string) returns (l: string, i: nat)
    ensures l == TrimLeft(s) && i <= |s| && l == s[i..]
    ensures AllNewlines(s[..i])
    ensures l == [] || l[0] != '\n'
    decreases |s|
  {
    if s != [] && s[0] == '\n' {
      l, i := TrimLeftSlice(s[1..]);
      assert s[..i + 1] == [s[0]] + s[1..][..i];
      i := i + 1;
    } else {
      l, i := s, 0;
    }
  }

  lemma {:induction false} TrimRightSlice(s: string) returns (j: nat)
    requires s == [] || s[0] != '\n'
    ensures j <= |s| && TrimRight(s) == s[..j]
    ensures AllNewlines(s[j..])
    ensures var t := TrimRight(s); t == [] || (t[0] != '\n' && t[|t| - 1] != '\n')
    decreases |s|
  {
    if s != [] && s[|s| - 1] == '\n' {
      j := TrimRightSlice(s[..|s| - 1]);
      assert s[j..] == s[..|s| - 1][j..] + [s[|s| - 1]];
    } else {
      j := |s|;
    }
  }

  /** A newline-free line followed by the newline an output ends with trims back to the line. */
  lemma {:induction false} TrimLine(x: string)
    requires '\n' !in x
    ensures TrimNewlines(x + "\n") == x
  {
    var s := x + ['\n'];
    assert s == x + "\n";
    assert s[..|s| - 1] == x;
    if x == [] {
      assert s[1..] == [];
      assert TrimLeft(s) == TrimLeft([]);
    } else {
      assert s[0] == x[0] != '\n';
      assert x[|x| - 1] in x;
      assert TrimRight(x) == x;
      assert TrimRight(s) == TrimRight(x);
    }
  }
}
