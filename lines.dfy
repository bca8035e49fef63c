/**
 * Line handling of the build script's diagnostics: JavaScript's
 * `text.split('\n')`, the `line.length` filter that drops empty lines, and
 * the first line of a message.
 */
module Lines {
  import opened Seqs

  /**
   * `s.split('\n')` as JavaScript computes it: the maximal newline-free
   * segments between newlines, including the empty ones. The result always
   * holds at least one segment (`"".split('\n')` is `[""]`).
   */
  function Split(s: string): (parts: seq<string>)
    ensures |parts| >= 1
    ensures forall i :: 0 <= i < |parts| ==> '\n' !in parts[i]
    ensures parts[0] <= s && (|parts[0]| == |s| || s[|parts[0]|] == '\n')
  {
    if s == [] then [""]
    else if s[0] == '\n' then [""] + Split(s[1..])
    else
      var rest := Split(s[1..]);
      [[s[0]] + rest[0]] + rest[1..]
  }

  /** `parts.join('\n')`: the segments with one newline between neighbours. */
  function Join(parts: seq<string>): string
  {
    if parts == [] then ""
    else if |parts| == 1 then parts[0]
    else parts[0] + "\n" + Join(parts[1..])
  }

  ghost predicate NewlineFree(parts: seq<string>)
  {
    forall i :: 0 <= i < |parts| ==> '\n' !in parts[i]
  }

  /** Joining the segments of a text gives the text back. */
  lemma {:induction false} JoinSplit(s: string)
    ensures Join(Split(s)) == s
  {
    if s != [] {
      var rest := Split(s[1..]);
      JoinSplit(s[1..]);
      if s[0] == '\n' {
        assert Split(s) == [""] + rest;
        assert ([""] + rest)[1..] == rest;
        assert s == "\n" + s[1..];
      } else {
        var parts := [[s[0]] + rest[0]] + rest[1..];
        assert Split(s) == parts;
        if |rest| == 1 {
          assert s == [s[0]] + s[1..];
        } else {
          assert parts[1..] == rest[1..];
          assert s == [s[0]] + (rest[0] + "\n" + Join(rest[1..]));
        }
      }
    }
  }

  /** A newline-free prefix becomes the front of the first segment. */
  lemma {:induction false} SplitNewlineFreePrefix(w: string, t: string)
    requires '\n' !in w
    ensures Split(w + t) == [w + Split(t)[0]] + Split(t)[1..]
  {
    var parts := Split(t);
    if w == [] {
      assert w + t == t && w + parts[0] == parts[0];
      assert parts == [parts[0]] + parts[1..];
    } else {
      var s := w + t;
      assert s[0] == w[0] && s[0] != '\n';
      assert s[1..] == w[1..] + t;
      SplitNewlineFreePrefix(w[1..], t);
      var rest := Split(s[1..]);
      assert rest[0] == w[1..] + parts[0] && rest[1..] == parts[1..];
      assert Split(s) == [[s[0]] + rest[0]] + rest[1..];
      assert [w[0]] + (w[1..] + parts[0]) == w + parts[0];
    }
  }

  /**
   * Splitting joined newline-free segments gives the segments back: the
   * segments of a text are the only newline-free list that joins to it.
   */
  lemma {:induction false} SplitJoin(parts: seq<string>)
    requires |parts| >= 1 && NewlineFree(parts)
    ensures Split(Join(parts)) == parts
  {
    if |parts| == 1 {
      SplitNewlineFreePrefix(parts[0], "");
      assert parts[0] + "" == parts[0];
    } else {
      var tail := Join(parts[1..]);
      SplitJoin(parts[1..]);
      assert Split("\n" + tail) == [""] + parts[1..] by {
        assert ("\n" + tail)[1..] == tail;
      }
      SplitNewlineFreePrefix(parts[0], "\n" + tail);
      assert Join(parts) == parts[0] + ("\n" + tail);
      assert parts[0] + "" == parts[0];
    }
  }

  /** `line.length` as a filter condition: the line is not empty. */
  predicate IsNonEmpty(line: string)
  {
    |line| > 0
  }

  /** The non-empty `'\n'`-separated segments of `s`, in order. */
  function NonEmptyLines(s: string): (lines: seq<string>)
    ensures forall l :: l in lines <==> l in Split(s) && l != ""
    ensures NewlineFree(lines)
  {
    Filter(IsNonEmpty, Split(s))
  }

  /**
   * If a text was written as the given lines (some of them possibly empty)
   * separated by newlines, its non-empty lines are exactly the non-empty
   * given lines, in the same order.
   */
  lemma NonEmptyLinesOfJoin(parts: seq<string>)
    requires |parts| >= 1 && NewlineFree(parts)
    ensures NonEmptyLines(Join(parts)) == Filter(IsNonEmpty, parts)
  {
    SplitJoin(parts);
  }

  /** The concatenation of a list of strings. */
  function Concat(parts: seq<string>): string
  {
    if parts == [] then "" else parts[0] + Concat(parts[1..])
  }

  function WithoutNewlines(s: string): string
  {
    Filter(c => c != '\n', s)
  }

  lemma {:induction false} ConcatAppend(a: seq<string>, b: seq<string>)
    ensures Concat(a + b) == Concat(a) + Concat(b)
  {
    if a != [] {
      assert (a + b)[1..] == a[1..] + b;
      ConcatAppend(a[1..], b);
    } else {
      assert a + b == b;
    }
  }

  /** Dropping empty strings does not change the concatenation. */
  lemma {:induction false} ConcatNonEmpty(parts: seq<string>)
    ensures Concat(Filter(IsNonEmpty, parts)) == Concat(parts)
  {
    if parts != [] {
      ConcatNonEmpty(parts[1..]);
    }
  }

  /** The segments of a text hold every character of it except the newlines. */
  lemma {:induction false} ConcatSplit(s: string)
    ensures Concat(Split(s)) == WithoutNewlines(s)
  {
    if s != [] {
      var rest := Split(s[1..]);
      ConcatSplit(s[1..]);
      if s[0] == '\n' {
        assert Split(s) == [""] + rest;
        assert ([""] + rest)[1..] == rest;
      } else {
        var parts := [[s[0]] + rest[0]] + rest[1..];
        assert Split(s) == parts;
        assert parts[1..] == rest[1..];
        assert rest == [rest[0]] + rest[1..];
        ConcatAppend([rest[0]], rest[1..]);
        assert Concat([rest[0]]) == rest[0];
        assert Concat([[s[0]] + rest[0]]) == [s[0]] + rest[0];
        ConcatAppend([[s[0]] + rest[0]], rest[1..]);
      }
    }
  }

  /**
   * The non-empty lines of a text, read one after another, are the text
   * with its newlines taken out: no character is lost, added or reordered.
   */
  lemma NonEmptyLinesKeepText(s: string)
    ensures Concat(NonEmptyLines(s)) == WithoutNewlines(s)
    ensures forall i :: 0 <= i < |NonEmptyLines(s)| ==> NonEmptyLines(s)[i] != ""
  {
    ConcatNonEmpty(Split(s));
    ConcatSplit(s);
  }

  /**
   * `message.split('\n')[0]`: the message up to its first newline, or the
   * whole message when it has none.
   */
  function FirstLine(message: string): (line: string)
    ensures line <= message
    ensures '\n' !in line
    ensures |line| == |message| || message[|line|] == '\n'
  {
    Split(message)[0]
  }
}
