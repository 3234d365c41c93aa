/** String operations behind the role header: the separator-joined form of a
    list, the separator-terminated form a `StringBuilder` accumulates when
    every element is appended followed by the separator, splitting on a
    separator character, and Java's bounds-checked `substring`. */
module Strings {
  import opened Wrappers

  /** The elements of `parts` in order, separated by `sep`, with no leading
      and no trailing separator; the empty list joins to "". */
  function Join(parts: seq<string>, sep: string): string
  {
    if |parts| == 0 then ""
    else if |parts| == 1 then parts[0]
    else parts[0] + sep + Join(parts[1..], sep)
  }

  /** Every element of `parts` followed by `sep`, in order: what an empty
      builder holds after appending each element and then `sep`. */
  function Terminated(parts: seq<string>, sep: string): string
  {
    if |parts| == 0 then ""
    else Terminated(parts[..|parts| - 1], sep) + parts[|parts| - 1] + sep
  }

  /** The sum of the lengths of the elements of `parts`. */
  function TotalLength(parts: seq<string>): nat
  {
    if |parts| == 0 then 0 else |parts[0]| + TotalLength(parts[1..])
  }

  /** The fields of `s` between occurrences of `c`, empty fields kept: a
      string with k occurrences of `c` has k + 1 fields, none containing `c`. */
  function Split(s: string, c: char): (fields: seq<string>)
    ensures |fields| >= 1
    ensures forall i :: 0 <= i < |fields| ==> c !in fields[i]
  {
    if |s| == 0 then [""]
    else
      var rest := Split(s[1..], c);
      if s[0] == c then [""] + rest
      else [[s[0]] + rest[0]] + rest[1..]
  }

  /** Java's `s.substring(begin, end)`: None exactly where Java throws
      StringIndexOutOfBoundsException, otherwise the characters of `s` from
      `begin` up to (not including) `end`. */
  function Substring(s: string, begin: int, end: int): (r: Option<string>)
    ensures r.Some? <==> 0 <= begin <= end <= |s|
    ensures r.Some? ==> |r.value| == end - begin && s == s[..begin] + r.value + s[end..]
  {
    if 0 <= begin <= end <= |s| then Some(s[begin..end]) else None
  }

  /** Prepending an element to a terminated list prepends that element and
      one separator. */
  lemma {:induction false} TerminatedCons(x: string, rest: seq<string>, sep: string)
    ensures Terminated([x] + rest, sep) == x + sep + Terminated(rest, sep)
    decreases |rest|
  {
    if |rest| == 0 {
      assert ([x] + rest)[..0] == [];
    } else {
      var s := [x] + rest;
      var m := |rest|;
      assert s[..|s| - 1] == [x] + rest[..m - 1];
      assert s[|s| - 1] == rest[m - 1];
      TerminatedCons(x, rest[..m - 1], sep);
      calc {
        Terminated(s, sep);
        Terminated([x] + rest[..m - 1], sep) + rest[m - 1] + sep;
        x + sep + Terminated(rest[..m - 1], sep) + rest[m - 1] + sep;
        x + sep + (Terminated(rest[..m - 1], sep) + rest[m - 1] + sep);
      }
    }
  }

  /** For a non-empty list the terminated form is the joined form followed by
      exactly one separator, so dropping |sep| trailing characters from the
      terminated form gives the joined form. */
  lemma {:induction false} TerminatedIsJoinThenSep(parts: seq<string>, sep: string)
    requires |parts| > 0
    ensures Terminated(parts, sep) == Join(parts, sep) + sep
    decreases |parts|
  {
    if |parts| == 1 {
      assert parts[..0] == [];
    } else {
      assert parts == [parts[0]] + parts[1..];
      TerminatedCons(parts[0], parts[1..], sep);
      TerminatedIsJoinThenSep(parts[1..], sep);
    }
  }

  /** A non-empty list joins to the total length of its elements plus one
      separator between each adjacent pair. */
  lemma {:induction false} JoinLength(parts: seq<string>, sep: string)
    requires |parts| > 0
    ensures |Join(parts, sep)| == TotalLength(parts) + (|parts| - 1) * |sep|
    decreases |parts|
  {
    if |parts| > 1 {
      JoinLength(parts[1..], sep);
      assert (|parts| - 1) * |sep| == (|parts[1..]| - 1) * |sep| + |sep|;
    }
  }

  /** A string free of `c` is a single field. */
  lemma {:induction false} SplitWithoutSeparator(x: string, c: char)
    requires c !in x
    ensures Split(x, c) == [x]
    decreases |x|
  {
    if |x| > 0 {
      assert [x[0]] + x[1..] == x;
      SplitWithoutSeparator(x[1..], c);
    }
  }

  /** A `c`-free prefix before the first `c` becomes the first field. */
  lemma {:induction false} SplitAtSeparator(x: string, c: char, y: string)
    requires c !in x
    ensures Split(x + [c] + y, c) == [x] + Split(y, c)
    decreases |x|
  {
    var s := x + [c] + y;
    if |x| == 0 {
      assert s == [c] + y;
      assert s[1..] == y;
    } else {
      assert s[0] == x[0];
      assert s[1..] == x[1..] + [c] + y;
      SplitAtSeparator(x[1..], c, y);
      assert [x[0]] + x[1..] == x;
    }
  }

  /** Splitting a join on its one-character separator gives back the list,
      provided no element contains that character. */
  lemma {:induction false} SplitJoin(parts: seq<string>, c: char)
    requires |parts| > 0
    requires forall i :: 0 <= i < |parts| ==> c !in parts[i]
    ensures Split(Join(parts, [c]), c) == parts
    decreases |parts|
  {
    if |parts| == 1 {
      SplitWithoutSeparator(parts[0], c);
    } else {
      SplitAtSeparator(parts[0], c, Join(parts[1..], [c]));
      SplitJoin(parts[1..], c);
      assert [parts[0]] + parts[1..] == parts;
    }
  }

  /** Joining the fields of a split on the same character gives back the
      string: together with SplitJoin, Split and Join are inverse. */
  lemma {:induction false} JoinSplit(s: string, c: char)
    ensures Join(Split(s, c), [c]) == s
    decreases |s|
  {
    if |s| > 0 {
      var rest := Split(s[1..], c);
      JoinSplit(s[1..], c);
      if s[0] == c {
        assert ([""] + rest)[1..] == rest;
        assert [s[0]] + s[1..] == s;
      } else {
        var fields := [[s[0]] + rest[0]] + rest[1..];
        if |rest| == 1 {
          assert [s[0]] + s[1..] == s;
        } else {
          assert fields[1..] == rest[1..];
          assert [s[0]] + s[1..] == s;
        }
      }
    }
  }
}
