/** Options: the usual optional-value wrapper. */
module Options {
  datatype Option<+T> = None | Some(value: T)
}

/**
 * The JavaScript string built-ins the viewer relies on, written out over
 * `seq<char>`: `split` with a one-character separator, `filter(Boolean)` on
 * the pieces, `lastIndexOf`, `substring(start)`, ASCII `toLowerCase`, and a
 * plain lexicographic order standing in for `localeCompare`. `Join` and
 * `EndsWith` are not used by the viewer; they are helpers for stating
 * properties (a path built from names, a name's ending).
 */
module StringOps {

  // ---------------------------------------------------------------------
  // split / join

  /** `s.split(sep)`: the maximal separator-free pieces of `s`, in order.
      There is always at least one piece, and `"".split(sep)` is `[""]`. */
  function Split(s: string, sep: char): (r: seq<string>)
    ensures |r| >= 1
    ensures forall i :: 0 <= i < |r| ==> sep !in r[i]
    decreases |s|
  {
    if s == [] then [""]
    else
      var rest := Split(s[1..], sep);
      if s[0] == sep then [""] + rest
      else [[s[0]] + rest[0]] + rest[1..]
  }

  /** The pieces glued together with `sep` between them (a helper for
      stating round trips; the viewer builds paths with a template literal). */
  function Join(parts: seq<string>, sep: char): string
    decreases |parts|
  {
    if parts == [] then ""
    else if |parts| == 1 then parts[0]
    else parts[0] + [sep] + Join(parts[1..], sep)
  }

  /** Joining the pieces of a split gives the original string back. */
  lemma {:induction false} JoinSplit(s: string, sep: char)
    ensures Join(Split(s, sep), sep) == s
    decreases |s|
  {
    if s != [] {
      JoinSplit(s[1..], sep);
      var rest := Split(s[1..], sep);
      if s[0] == sep {
        assert Split(s, sep) == [""] + rest;
        assert ([""] + rest)[1..] == rest;
      } else {
        var r := Split(s, sep);
        assert r == [[s[0]] + rest[0]] + rest[1..];
        if |rest| == 1 {
          assert Join(rest, sep) == rest[0];
        } else {
          assert r[1..] == rest[1..];
          assert Join(r, sep) == ([s[0]] + rest[0]) + [sep] + Join(rest[1..], sep);
          assert Join(rest, sep) == rest[0] + [sep] + Join(rest[1..], sep);
        }
      }
    }
  }

  /** A separator-free string splits into itself alone. */
  lemma {:induction false} SplitPlain(x: string, sep: char)
    requires sep !in x
    ensures Split(x, sep) == [x]
    decreases |x|
  {
    if x != [] {
      SplitPlain(x[1..], sep);
      assert [x[0]] + x[1..] == x;
    }
  }

  /** Splitting `x + sep + y` with a separator-free `x` yields `x` first. */
  lemma {:induction false} SplitAfterPiece(x: string, y: string, sep: char)
    requires sep !in x
    ensures Split(x + [sep] + y, sep) == [x] + Split(y, sep)
    decreases |x|
  {
    var s := x + [sep] + y;
    if x == [] {
      assert s[0] == sep && s[1..] == y;
    } else {
      assert s[0] == x[0] && s[1..] == x[1..] + [sep] + y;
      SplitAfterPiece(x[1..], y, sep);
      assert [x[0]] + x[1..] == x;
    }
  }

  /** A separator splits the string exactly there: the pieces of
      `x + sep + y` are the pieces of `x` followed by those of `y`. */
  lemma {:induction false} SplitAtSeparator(x: string, y: string, sep: char)
    ensures Split(x + [sep] + y, sep) == Split(x, sep) + Split(y, sep)
    decreases |x|
  {
    var s := x + [sep] + y;
    if x == [] {
      assert s[0] == sep && s[1..] == y;
    } else {
      assert s[0] == x[0] && s[1..] == x[1..] + [sep] + y;
      SplitAtSeparator(x[1..], y, sep);
      SplitStep(x, s, sep, Split(x[1..], sep), Split(y, sep));
    }
  }

  /** The inductive step of `SplitAtSeparator`, with the pieces of the tails
      given. */
  lemma SplitStep(x: string, s: string, sep: char, rx: seq<string>, ry: seq<string>)
    requires x != [] && s != [] && s[0] == x[0]
    requires rx == Split(x[1..], sep) && Split(s[1..], sep) == rx + ry
    ensures Split(s, sep) == Split(x, sep) + ry
  {
    if x[0] == sep {
      AppendAssoc([""], rx, ry);
    } else {
      var head := [x[0]] + rx[0];
      assert Split(s, sep) == [head] + (rx + ry)[1..];
      assert Split(x, sep) == [head] + rx[1..];
      ReplaceHead(head, rx, ry);
    }
  }

  lemma AppendAssoc<T>(a: seq<T>, b: seq<T>, c: seq<T>)
    ensures a + (b + c) == (a + b) + c
  {
  }

  lemma ReplaceHead<T>(h: T, b: seq<T>, c: seq<T>)
    requires b != []
    ensures [h] + (b + c)[1..] == ([h] + b[1..]) + c
  {
    assert (b + c)[1..] == b[1..] + c;
  }

  /** Splitting a join of separator-free pieces gives the pieces back. */
  lemma {:induction false} SplitJoin(parts: seq<string>, sep: char)
    requires |parts| >= 1
    requires forall i :: 0 <= i < |parts| ==> sep !in parts[i]
    ensures Split(Join(parts, sep), sep) == parts
    decreases |parts|
  {
    if |parts| == 1 {
      SplitPlain(parts[0], sep);
    } else {
      SplitJoin(parts[1..], sep);
      SplitAfterPiece(parts[0], Join(parts[1..], sep), sep);
      assert [parts[0]] + parts[1..] == parts;
    }
  }

  /** The last piece of a split is what follows the last separator: a suffix
      of `s` preceded by a separator, or all of `s` when there is one piece. */
  lemma {:induction false} SplitLastPiece(s: string, sep: char)
    ensures var pc := Split(s, sep); var l := pc[|pc| - 1];
      && |l| <= |s| && l == s[|s| - |l|..]
      && (|pc| == 1 ==> l == s)
      && (|pc| > 1 ==> |l| < |s| && s[|s| - |l| - 1] == sep)
    decreases |s|
  {
    if s != [] {
      SplitLastPiece(s[1..], sep);
      var rest := Split(s[1..], sep);
      var pc := Split(s, sep);
      if s[0] == sep {
        assert pc == [""] + rest;
      } else {
        assert pc == [[s[0]] + rest[0]] + rest[1..];
        if |rest| == 1 {
          assert [s[0]] + s[1..] == s;
        }
      }
    }
  }

  /** `pieces.filter(Boolean)`: the non-empty pieces, in their order. */
  function DropEmpty(parts: seq<string>): (r: seq<string>)
    ensures |r| <= |parts|
    ensures forall i :: 0 <= i < |r| ==> r[i] != ""
    ensures forall x :: x in r <==> x in parts && x != ""
    decreases |parts|
  {
    if parts == [] then []
    else if parts[0] == "" then DropEmpty(parts[1..])
    else [parts[0]] + DropEmpty(parts[1..])
  }

  /** Filtering one piece keeps it exactly when it is non-empty. */
  lemma DropEmptySingle(x: string)
    ensures DropEmpty([x]) == if x == "" then [] else [x]
  {
    assert [x][1..] == [];
  }

  /** Filtering works piece by piece and keeps the order: the filter of a
      concatenation is the concatenation of the filters. */
  lemma {:induction false} DropEmptyAppend(a: seq<string>, b: seq<string>)
    ensures DropEmpty(a + b) == DropEmpty(a) + DropEmpty(b)
    decreases |a|
  {
    if a != [] {
      DropEmptyAppend(a[1..], b);
      assert (a + b)[1..] == a[1..] + b;
      assert (a + b)[0] == a[0];
    } else {
      assert a + b == b;
    }
  }

  /** Filtering a list with no empty piece changes nothing. */
  lemma {:induction false} DropEmptyNoOp(parts: seq<string>)
    requires forall i :: 0 <= i < |parts| ==> parts[i] != ""
    ensures DropEmpty(parts) == parts
    decreases |parts|
  {
    if parts != [] {
      DropEmptyNoOp(parts[1..]);
      assert [parts[0]] + parts[1..] == parts;
    }
  }

  /** Some piece of `s.split(sep)` is non-empty exactly when `s` holds a
      character other than the separator. */
  lemma {:induction false} SplitHasNonEmptyPiece(s: string, sep: char)
    ensures (exists i :: 0 <= i < |Split(s, sep)| && Split(s, sep)[i] != "")
        <==> (exists j :: 0 <= j < |s| && s[j] != sep)
    decreases |s|
  {
    if s != [] {
      SplitHasNonEmptyPiece(s[1..], sep);
      var rest := Split(s[1..], sep);
      var r := Split(s, sep);
      if s[0] == sep {
        assert r == [""] + rest;
        if exists i :: 0 <= i < |r| && r[i] != "" {
          var i :| 0 <= i < |r| && r[i] != "";
          assert rest[i - 1] != "";
          var j :| 0 <= j < |s[1..]| && s[1..][j] != sep;
          assert s[j + 1] != sep;
        }
        if exists j :: 0 <= j < |s| && s[j] != sep {
          var j :| 0 <= j < |s| && s[j] != sep;
          assert s[1..][j - 1] != sep;
          var i :| 0 <= i < |rest| && rest[i] != "";
          assert r[i + 1] != "";
        }
      } else {
        assert r[0] == [s[0]] + rest[0] && r[0] != "";
        assert s[0] != sep;
      }
    }
  }

  // ---------------------------------------------------------------------
  // searching, slicing and case

  /** The last position below `n` that holds `c`, or -1: the backwards scan
      of `lastIndexOf`. */
  function LastIndexBefore(s: string, c: char, n: nat): (r: int)
    requires n <= |s|
    ensures -1 <= r < n
    ensures r >= 0 ==> s[r] == c
    ensures forall j :: r < j < n ==> s[j] != c
    decreases n
  {
    if n == 0 then -1
    else if s[n - 1] == c then n - 1
    else LastIndexBefore(s, c, n - 1)
  }

  /** `s.lastIndexOf(c)` for one character: the position of the last `c`,
      or -1 when `c` does not occur. */
  function LastIndexOf(s: string, c: char): (r: int)
    ensures -1 <= r < |s|
    ensures r >= 0 ==> s[r] == c
    ensures forall j :: r < j < |s| ==> s[j] != c
  {
    LastIndexBefore(s, c, |s|)
  }

  /** The last occurrence is the one with no occurrence after it. */
  lemma LastIndexOfAt(s: string, c: char, at: int)
    requires 0 <= at < |s| && s[at] == c
    requires forall j :: at < j < |s| ==> s[j] != c
    ensures LastIndexOf(s, c) == at
  {
  }

  /** `s.substring(start)` with one argument: a negative start counts as 0. */
  function SubstringFrom(s: string, start: int): (r: string)
    ensures start <= 0 ==> r == s
    ensures 0 <= start <= |s| ==> r == s[start..]
    ensures |r| <= |s| && r == s[|s| - |r|..]
  {
    if start <= 0 then s
    else if start >= |s| then ""
    else s[start..]
  }

  /** ASCII lower-casing of one character. */
  function LowerChar(c: char): (r: char)
    ensures 'A' <= c <= 'Z' ==> r as int == c as int - 'A' as int + 'a' as int
    ensures !('A' <= c <= 'Z') ==> r == c
    ensures r == '.' <==> c == '.'
  {
    if 'A' <= c <= 'Z' then (c as int - 'A' as int + 'a' as int) as char else c
  }

  /** `s.toLowerCase()` restricted to ASCII letters. */
  function Lower(s: string): (r: string)
  {
    seq(|s|, i requires 0 <= i < |s| => LowerChar(s[i]))
  }

  /** `suffix` is an ending of `s` (a helper for stating properties). */
  predicate EndsWith(s: string, suffix: string) {
    |suffix| <= |s| && s[|s| - |suffix|..] == suffix
  }

  // ---------------------------------------------------------------------
  // a total order on names (standing in for `localeCompare`)

  /** Strict lexicographic order on character codes. */
  predicate Less(a: string, b: string)
    decreases |a|
  {
    if a == [] then b != []
    else if b == [] then false
    else a[0] < b[0] || (a[0] == b[0] && Less(a[1..], b[1..]))
  }

  lemma {:induction false} LessIrreflexive(a: string)
    ensures !Less(a, a)
    decreases |a|
  {
    if a != [] { LessIrreflexive(a[1..]); }
  }

  lemma {:induction false} LessAsymmetric(a: string, b: string)
    ensures Less(a, b) ==> !Less(b, a)
    decreases |a|
  {
    if a != [] && b != [] { LessAsymmetric(a[1..], b[1..]); }
  }

  lemma {:induction false} LessTransitive(a: string, b: string, c: string)
    requires Less(a, b) && Less(b, c)
    ensures Less(a, c)
    decreases |a|
  {
    if a != [] && a[0] == b[0] && b[0] == c[0] {
      LessTransitive(a[1..], b[1..], c[1..]);
    }
  }

  lemma {:induction false} LessTotal(a: string, b: string)
    requires a != b
    ensures Less(a, b) || Less(b, a)
    decreases |a|
  {
    if a != [] && b != [] && a[0] == b[0] {
      assert a == [a[0]] + a[1..] && b == [b[0]] + b[1..];
      LessTotal(a[1..], b[1..]);
    }
  }
}
