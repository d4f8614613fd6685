/** Text helpers shared by the query builder and the issue formatter:
    optional values with Python truthiness, `str.join`, newline-terminated
    lines and `str.split("\n")`. */
module Text {

  datatype Option<T> = None | Some(value: T)

  /** Python truthiness of an optional string: `None` and `""` are false. */
  predicate Truthy(o: Option<string>): (b: bool)
    ensures o == None ==> !b
    ensures o == Some("") ==> !b
    ensures forall v :: o == Some(v) && v != "" ==> b
  {
    o.Some? && o.value != ""
  }

  /** `sep.join(parts)`: the parts in order, with `sep` between neighbours;
      it starts with the first part and ends with the last. */
  function Join(sep: string, parts: seq<string>): (r: string)
    ensures |parts| > 0 ==> |parts[0]| <= |r| && r[..|parts[0]|] == parts[0]
    ensures |parts| > 0 ==> |parts[|parts| - 1]| <= |r| && r[|r| - |parts[|parts| - 1]|..] == parts[|parts| - 1]
  {
    if |parts| == 0 then ""
    else if |parts| == 1 then parts[0]
    else parts[0] + sep + Join(sep, parts[1..])
  }

  /** Joining two non-empty lists is joining each and gluing the results with
      one separator: the parts keep their order and nothing is dropped. */
  lemma {:induction false} JoinAppend(sep: string, xs: seq<string>, ys: seq<string>)
    requires xs != [] && ys != []
    ensures Join(sep, xs + ys) == Join(sep, xs) + sep + Join(sep, ys)
  {
    if |xs| == 1 {
      assert (xs + ys)[0] == xs[0];
      assert (xs + ys)[1..] == ys;
    } else {
      assert (xs + ys)[0] == xs[0];
      assert (xs + ys)[1..] == xs[1..] + ys;
      JoinAppend(sep, xs[1..], ys);
    }
  }

  /** Total number of characters in a list of strings. */
  function TotalLength(parts: seq<string>): nat
  {
    if parts == [] then 0 else |parts[0]| + TotalLength(parts[1..])
  }

  /** A join of n parts holds exactly the parts' characters and n - 1 separators. */
  lemma {:induction false} JoinLength(sep: string, parts: seq<string>)
    requires parts != []
    ensures |Join(sep, parts)| == TotalLength(parts) + (|parts| - 1) * |sep|
  {
    if |parts| > 1 {
      JoinLength(sep, parts[1..]);
    }
  }

  /** Each line followed by "\n", concatenated: the text the issue body is
      built from, one `+= "...\n"` at a time. */
  function Unlines(lines: seq<string>): string
  {
    if lines == [] then "" else lines[0] + "\n" + Unlines(lines[1..])
  }

  lemma {:induction false} UnlinesAppend(xs: seq<string>, ys: seq<string>)
    ensures Unlines(xs + ys) == Unlines(xs) + Unlines(ys)
  {
    if xs == [] {
      assert xs + ys == ys;
    } else {
      assert (xs + ys)[0] == xs[0];
      assert (xs + ys)[1..] == xs[1..] + ys;
      UnlinesAppend(xs[1..], ys);
    }
  }

  /** Text made of at least one line ends with a newline. */
  lemma {:induction false} UnlinesEndsWithNewline(lines: seq<string>)
    requires lines != []
    ensures |Unlines(lines)| > 0 && Unlines(lines)[|Unlines(lines)| - 1] == '\n'
  {
    if lines[1..] != [] {
      UnlinesEndsWithNewline(lines[1..]);
    }
  }

  /** Python's `s.split("\n")`: the pieces between newlines, never empty as a
      list, no piece containing a newline. */
  function SplitLines(s: string): (r: seq<string>)
    ensures |r| >= 1
    ensures forall i :: 0 <= i < |r| ==> '\n' !in r[i]
  {
    if s == [] then [""]
    else
      var rest := SplitLines(s[1..]);
      if s[0] == '\n' then [""] + rest
      else [[s[0]] + rest[0]] + rest[1..]
  }

  lemma {:induction false} SplitLinesNoNewline(s: string)
    requires '\n' !in s
    ensures SplitLines(s) == [s]
  {
    if s != [] {
      assert [s[0]] + s[1..] == s;
      SplitLinesNoNewline(s[1..]);
    }
  }

  /** Splitting at a newline splits the two sides separately. */
  lemma {:induction false} SplitLinesAtNewline(a: string, b: string)
    ensures SplitLines(a + "\n" + b) == SplitLines(a) + SplitLines(b)
  {
    if a == [] {
      assert a + "\n" + b == "\n" + b;
      assert ("\n" + b)[1..] == b;
    } else {
      assert (a + "\n" + b)[0] == a[0];
      assert (a + "\n" + b)[1..] == a[1..] + "\n" + b;
      SplitLinesAtNewline(a[1..], b);
    }
  }

  /** Lines without newlines come back from the text they make, followed by
      the empty piece after the final newline. */
  lemma {:induction false} SplitUnlines(lines: seq<string>)
    requires forall i :: 0 <= i < |lines| ==> '\n' !in lines[i]
    ensures SplitLines(Unlines(lines)) == lines + [""]
  {
    if lines != [] {
      SplitLinesAtNewline(lines[0], Unlines(lines[1..]));
      SplitLinesNoNewline(lines[0]);
      SplitUnlines(lines[1..]);
      assert lines == [lines[0]] + lines[1..];
    }
  }

  lemma AppendAssoc<T>(a: seq<T>, b: seq<T>, c: seq<T>)
    ensures a + b + c == a + (b + c)
  {
  }

  /** Newline-free lines followed by any text split into those lines and
      then the pieces of the text. */
  lemma {:induction false} SplitAfterLines(lines: seq<string>, rest: string)
    requires forall i :: 0 <= i < |lines| ==> '\n' !in lines[i]
    ensures SplitLines(Unlines(lines) + rest) == lines + SplitLines(rest)
  {
    if lines == [] {
      assert Unlines(lines) + rest == rest;
    } else {
      var more := Unlines(lines[1..]) + rest;
      AppendAssoc(lines[0] + "\n", Unlines(lines[1..]), rest);
      SplitLinesAtNewline(lines[0], more);
      SplitLinesNoNewline(lines[0]);
      SplitAfterLines(lines[1..], rest);
      AppendAssoc([lines[0]], lines[1..], SplitLines(rest));
      assert lines == [lines[0]] + lines[1..];
    }
  }

  /** One line that may hold newlines, between newline-free lines: read
      back, that line contributes its own pieces. */
  lemma SplitUnlinesAround(head: seq<string>, line: string, tail: seq<string>)
    requires forall i :: 0 <= i < |head| ==> '\n' !in head[i]
    requires forall i :: 0 <= i < |tail| ==> '\n' !in tail[i]
    ensures SplitLines(Unlines(head + [line] + tail)) == head + SplitLines(line) + tail + [""]
  {
    var rest := line + "\n" + Unlines(tail);
    AppendAssoc(head, [line], tail);
    UnlinesAppend(head, [line] + tail);
    assert ([line] + tail)[1..] == tail;
    assert Unlines([line] + tail) == rest;
    SplitAfterLines(head, rest);
    SplitLinesAtNewline(line, Unlines(tail));
    SplitUnlines(tail);
    AppendAssoc(head, SplitLines(line), tail + [""]);
    AppendAssoc(head + SplitLines(line), tail, [""]);
  }

  /** The other direction: re-terminating the pieces of any text gives that
      text followed by one newline. */
  lemma {:induction false} UnlinesSplit(s: string)
    ensures Unlines(SplitLines(s)) == s + "\n"
  {
    if s != [] {
      var rest := SplitLines(s[1..]);
      UnlinesSplit(s[1..]);
      if s[0] == '\n' {
        assert ([""] + rest)[1..] == rest;
        assert [s[0]] + s[1..] == s;
      } else {
        var r := [[s[0]] + rest[0]] + rest[1..];
        assert r[0] == [s[0]] + rest[0] && r[1..] == rest[1..];
        assert Unlines(r) == [s[0]] + (rest[0] + "\n" + Unlines(rest[1..]));
        assert Unlines(rest) == rest[0] + "\n" + Unlines(rest[1..]);
        assert [s[0]] + s[1..] == s;
      }
    }
  }
}
