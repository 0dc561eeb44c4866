/** String splitting as Python's `str.split(sep)` and JavaScript's
    `String.prototype.split(sep)` do it for a one-character separator: the
    text between separators, empty fields included, always at least one
    field. */
module Text {
  import opened Common

  function Split(s: string, sep: char): (r: seq<string>)
    ensures |r| >= 1
    ensures forall k :: 0 <= k < |r| ==> sep !in r[k]
    ensures |r| == 1 <==> sep !in s
    decreases |s|
  {
    if |s| == 0 then [""]
    else
      var rest := Split(s[1..], sep);
      assert sep in s <==> s[0] == sep || sep in s[1..] by {
        assert s == [s[0]] + s[1..];
      }
      if s[0] == sep then [""] + rest
      else [[s[0]] + rest[0]] + rest[1..]
  }

  /** The inverse of `Split`: the fields glued back with the separator. */
  function Join(parts: seq<string>, sep: char): string
    requires |parts| >= 1
    decreases |parts|
  {
    if |parts| == 1 then parts[0] else parts[0] + [sep] + Join(parts[1..], sep)
  }

  /** Field `i` of a split, if there is one: indexing past the end raises
      `IndexError` in Python and gives `undefined` in JavaScript. */
  function Field(parts: seq<string>, i: nat): Option<string>
  {
    if i < |parts| then Some(parts[i]) else None
  }

  /** Splitting loses nothing: joining the fields gives back the text. */
  lemma {:induction false} JoinSplit(s: string, sep: char)
    ensures Join(Split(s, sep), sep) == s
    decreases |s|
  {
    if |s| > 0 {
      var rest := Split(s[1..], sep);
      JoinSplit(s[1..], sep);
      if s[0] == sep {
        assert ([""] + rest)[1..] == rest;
        assert s == [sep] + s[1..];
      } else if |rest| == 1 {
        assert s == [s[0]] + s[1..];
      } else {
        assert Join(rest, sep) == rest[0] + [sep] + Join(rest[1..], sep);
        assert ([[s[0]] + rest[0]] + rest[1..])[1..] == rest[1..];
        assert s == [s[0]] + s[1..];
      }
    }
  }

  /** A prefix free of the separator belongs wholly to the first field. */
  lemma {:induction false} SplitPrefix(x: string, y: string, sep: char)
    requires sep !in x
    ensures Split(x + y, sep) == [x + Split(y, sep)[0]] + Split(y, sep)[1..]
    decreases |x|
  {
    if |x| > 0 {
      SplitPrefix(x[1..], y, sep);
      assert (x + y)[1..] == x[1..] + y;
      assert (x + y)[0] == x[0];
      assert [x[0]] + (x[1..] + Split(y, sep)[0]) == x + Split(y, sep)[0];
    } else {
      assert x + y == y;
      assert x + Split(y, sep)[0] == Split(y, sep)[0];
      assert [Split(y, sep)[0]] + Split(y, sep)[1..] == Split(y, sep);
    }
  }

  /** A leading separator produces an empty first field. */
  lemma SplitLeadingSeparator(y: string, sep: char)
    ensures Split([sep] + y, sep) == [""] + Split(y, sep)
  {
    assert ([sep] + y)[1..] == y;
  }

  /** Text free of the separator is a single field. */
  lemma SplitNoSeparator(x: string, sep: char)
    requires sep !in x
    ensures Split(x, sep) == [x]
  {
    SplitPrefix(x, "", sep);
    assert x + "" == x;
  }

  /** Text free of the separator, followed by the separator, is the whole
      first field. */
  lemma FirstField(x: string, y: string, sep: char)
    requires sep !in x
    ensures Split(x + [sep] + y, sep)[0] == x
  {
    SplitPrefix(x, [sep] + y, sep);
    SplitLeadingSeparator(y, sep);
    assert x + [sep] + y == x + ([sep] + y);
    assert x + "" == x;
  }

  /** After the first separator, the second field is the first field of
      what follows. */
  lemma SecondField(x: string, y: string, sep: char)
    requires sep !in x
    ensures |Split(x + [sep] + y, sep)| >= 2
    ensures Split(x + [sep] + y, sep)[1] == Split(y, sep)[0]
  {
    SplitPrefix(x, [sep] + y, sep);
    SplitLeadingSeparator(y, sep);
    assert x + [sep] + y == x + ([sep] + y);
  }

  /** Splitting undoes joining fields that do not contain the separator. */
  lemma {:induction false} SplitJoin(parts: seq<string>, sep: char)
    requires |parts| >= 1
    requires forall k :: 0 <= k < |parts| ==> sep !in parts[k]
    ensures Split(Join(parts, sep), sep) == parts
    decreases |parts|
  {
    if |parts| == 1 {
      SplitNoSeparator(parts[0], sep);
    } else {
      var tail := Join(parts[1..], sep);
      SplitJoin(parts[1..], sep);
      SplitPrefix(parts[0], [sep] + tail, sep);
      SplitLeadingSeparator(tail, sep);
      var lead := Split([sep] + tail, sep);
      assert lead[0] == "" && lead[1..] == parts[1..];
      assert parts[0] + lead[0] == parts[0];
      assert parts[0] + [sep] + tail == parts[0] + ([sep] + tail);
      assert [parts[0]] + parts[1..] == parts;
    }
  }
}
