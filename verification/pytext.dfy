/** The few Python `str` operations the miner relies on, written out with
    their exact Python meaning: `split(sep)`, `strip()`, `strip(chars)`,
    `rstrip(chars)`, `rpartition(sep)[0]` and `isalnum()`. */
module PyText {

  /** The ASCII characters for which Python's `str.isspace()` holds. */
  const Whitespace: set<char> :=
    {' ', '\t', '\n', '\U{0B}', '\U{0C}', '\r', '\U{1C}', '\U{1D}', '\U{1E}', '\U{1F}'}

  /** Number of occurrences of `c` in `s`. */
  function Count(s: string, c: char): nat
  {
    if |s| == 0 then 0
    else (if s[0] == c then 1 else 0) + Count(s[1..], c)
  }

  lemma {:induction false} CountZero(s: string, c: char)
    ensures Count(s, c) == 0 <==> c !in s
  {
    if |s| > 0 {
      CountZero(s[1..], c);
      assert s == [s[0]] + s[1..];
    }
  }

  lemma {:induction false} CountAppend(a: string, b: string, c: char)
    ensures Count(a + b, c) == Count(a, c) + Count(b, c)
  {
    if |a| == 0 {
      assert a + b == b;
    } else {
      assert (a + b)[1..] == a[1..] + b;
      CountAppend(a[1..], b, c);
    }
  }

  /** Python's `s.split(sep)` for a one-character separator: n occurrences
      of `sep` give n + 1 fields, empty fields included. */
  function Split(s: string, sep: char): (fields: seq<string>)
    ensures |fields| == Count(s, sep) + 1
    ensures forall i :: 0 <= i < |fields| ==> sep !in fields[i]
  {
    if |s| == 0 then [""]
    else
      var rest := Split(s[1..], sep);
      if s[0] == sep then [""] + rest
      else [[s[0]] + rest[0]] + rest[1..]
  }

  /** Python's `sep.join(fields)`. */
  function Join(fields: seq<string>, sep: char): string
  {
    if |fields| == 0 then ""
    else if |fields| == 1 then fields[0]
    else fields[0] + [sep] + Join(fields[1..], sep)
  }

  /** Joining one more field appends a separator and that field. */
  lemma {:induction false} JoinSnoc(fields: seq<string>, last: string, sep: char)
    requires |fields| >= 1
    ensures Join(fields + [last], sep) == Join(fields, sep) + [sep] + last
  {
    if |fields| > 1 {
      assert (fields + [last])[1..] == fields[1..] + [last];
      JoinSnoc(fields[1..], last, sep);
    } else {
      assert (fields + [last])[1..] == [last];
    }
  }

  /** Splitting and re-joining gives back the original text. */
  lemma {:induction false} JoinSplit(s: string, sep: char)
    ensures Join(Split(s, sep), sep) == s
  {
    if |s| > 0 {
      var rest := Split(s[1..], sep);
      JoinSplit(s[1..], sep);
      if s[0] == sep {
        assert Split(s, sep)[1..] == rest;
      } else {
        var f := Split(s, sep);
        if |rest| == 1 {
          assert f == [[s[0]] + rest[0]];
        } else {
          assert f[1..] == rest[1..];
          assert Join(rest, sep) == rest[0] + [sep] + Join(rest[1..], sep);
        }
      }
      assert s == [s[0]] + s[1..];
    }
  }

  /** Splitting text that starts with a separator-free piece. */
  lemma {:induction false} SplitPrefix(a: string, t: string, sep: char)
    requires sep !in a
    ensures Split(a + t, sep) == [a + Split(t, sep)[0]] + Split(t, sep)[1..]
  {
    if |a| > 0 {
      var f := Split(t, sep);
      assert (a + t)[1..] == a[1..] + t;
      assert (a + t)[0] == a[0] && a[0] != sep;
      SplitPrefix(a[1..], t, sep);
      var rest := Split(a[1..] + t, sep);
      assert rest[0] == a[1..] + f[0] && rest[1..] == f[1..];
      assert [a[0]] + (a[1..] + f[0]) == a + f[0];
    } else {
      var f := Split(t, sep);
      assert a + t == t;
      assert a + f[0] == f[0];
      assert f == [f[0]] + f[1..];
    }
  }

  /** Joining separator-free fields and splitting again gives back the fields. */
  lemma {:induction false} SplitJoin(fields: seq<string>, sep: char)
    requires |fields| >= 1
    requires forall i :: 0 <= i < |fields| ==> sep !in fields[i]
    ensures Split(Join(fields, sep), sep) == fields
  {
    if |fields| == 1 {
      SplitPrefix(fields[0], "", sep);
      assert fields[0] + "" == fields[0];
    } else {
      var tail := Join(fields[1..], sep);
      SplitJoin(fields[1..], sep);
      var rest := [sep] + tail;
      SplitPrefix(fields[0], rest, sep);
      assert fields[0] + [sep] + tail == fields[0] + rest;
      assert rest[1..] == tail;
      assert Split(rest, sep) == [""] + fields[1..];
      assert fields[0] + "" == fields[0];
      assert fields == [fields[0]] + fields[1..];
    }
  }

  /** Python's `s.lstrip(chars)`: drops the longest prefix drawn from `cs`. */
  function TrimLeft(s: string, cs: set<char>): (r: string)
    ensures |r| <= |s| && r == s[|s| - |r|..]
    ensures r == [] || r[0] !in cs
    ensures forall i :: 0 <= i < |s| - |r| ==> s[i] in cs
  {
    if |s| == 0 || s[0] !in cs then s else TrimLeft(s[1..], cs)
  }

  /** Python's `s.rstrip(chars)`: drops the longest suffix drawn from `cs`. */
  function TrimRight(s: string, cs: set<char>): (r: string)
    ensures |r| <= |s| && r == s[..|r|]
    ensures r == [] || r[|r| - 1] !in cs
    ensures forall i :: |r| <= i < |s| ==> s[i] in cs
  {
    if |s| == 0 || s[|s| - 1] !in cs then s else TrimRight(s[..|s| - 1], cs)
  }

  /** Python's `s.strip(chars)`. */
  function Trim(s: string, cs: set<char>): string
  {
    TrimRight(TrimLeft(s, cs), cs)
  }

  /** Python's `s.strip()` (ASCII whitespace only). */
  function Strip(s: string): string
  {
    Trim(s, Whitespace)
  }

  /** Text whose ends are not in `cs` is left alone by `Trim`. */
  lemma TrimUntouched(s: string, cs: set<char>)
    requires s == [] || (s[0] !in cs && s[|s| - 1] !in cs)
    ensures Trim(s, cs) == s
  {
  }

  /** ASCII letters and digits. */
  predicate IsAlnumChar(c: char)
  {
    ('0' <= c <= '9') || ('a' <= c <= 'z') || ('A' <= c <= 'Z')
  }

  /** Python's `s.isalnum()`, restricted to ASCII: non-empty and every
      character a letter or a digit. */
  predicate IsAlnum(s: string)
  {
    |s| > 0 && forall i :: 0 <= i < |s| ==> IsAlnumChar(s[i])
  }

  /** Python's `s.rpartition(sep)[0]`: the text before the last `sep`, or
      the empty string when `sep` does not occur. */
  function RPartitionHead(s: string, sep: char): (head: string)
    ensures sep !in s ==> head == ""
    ensures sep in s ==> |head| < |s| && s[..|head| + 1] == head + [sep]
    ensures sep in s ==> sep !in s[|head| + 1..]
  {
    if |s| == 0 then ""
    else if s[|s| - 1] == sep then s[..|s| - 1]
    else
      var h := RPartitionHead(s[..|s| - 1], sep);
      assert sep in s ==> sep in s[..|s| - 1];
      h
  }

  /** The head of `rpartition` on `head + sep + tail`, with `tail` free of `sep`. */
  lemma {:induction false} RPartitionSplit(head: string, tail: string, sep: char)
    requires sep !in tail
    ensures RPartitionHead(head + [sep] + tail, sep) == head
  {
    var s := head + [sep] + tail;
    if |tail| == 0 {
      assert s[..|s| - 1] == head;
    } else {
      var t' := tail[..|tail| - 1];
      assert s[..|s| - 1] == head + [sep] + t';
      assert s[|s| - 1] != sep by { assert s[|s| - 1] == tail[|tail| - 1]; }
      assert RPartitionHead(s, sep) == RPartitionHead(s[..|s| - 1], sep);
      RPartitionSplit(head, t', sep);
    }
  }

  /** In text made of a part ending in `sep` and a `sep`-free tail, the
      `rpartition` head plus `sep` is that first part and the tail follows it. */
  lemma RPartitionTail(front: string, tail: string, sep: char)
    requires |front| > 0 && front[|front| - 1] == sep && sep !in tail
    ensures RPartitionHead(front + tail, sep) + [sep] == front
    ensures (front + tail)[|front|..] == tail
  {
    var head := front[..|front| - 1];
    assert front + tail == head + [sep] + tail;
    RPartitionSplit(head, tail, sep);
  }
}
