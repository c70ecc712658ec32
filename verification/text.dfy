/**
 * Character-sequence helpers: searching (std::string::find) and the field splitting that
 * the library performs with `std::getline(ss, field, ',')` over an `istringstream`.
 */
module Text {

  /** Position of the first `c` in `s`, or `|s|` when there is none. */
  function IndexOf(s: seq<char>, c: char): (k: nat)
    ensures k <= |s|
    ensures k < |s| ==> s[k] == c
    ensures k == |s| <==> c !in s
  {
    if s == [] then 0
    else if s[0] == c then 0
    else 1 + IndexOf(s[1..], c)
  }

  /** `IndexOf` finds the first `c`. */
  lemma {:induction false} IndexOfFirst(s: seq<char>, c: char)
    ensures c !in s[..IndexOf(s, c)]
  {
    if s != [] && s[0] != c {
      IndexOfFirst(s[1..], c);
      assert s[..IndexOf(s, c)] == [s[0]] + s[1..][..IndexOf(s[1..], c)];
      assert s == [s[0]] + s[1..];
    }
  }

  /**
   * `substr(pos, count)`: the characters from `pos` on, at most `count` of them; a count
   * that reaches past the end is cut down to what is left.
   */
  function Substr(s: seq<char>, pos: nat, count: nat): seq<char>
    requires pos <= |s|
  {
    if count < |s| - pos then s[pos..pos + count] else s[pos..]
  }

  /** Number of occurrences of `c` in `s`. */
  function Count(s: seq<char>, c: char): nat
  {
    if s == [] then 0 else (if s[0] == c then 1 else 0) + Count(s[1..], c)
  }

  /**
   * The fields a `while (ss.good()) getline(ss, field, sep)` loop reads from `s`: the text
   * before the first separator, then the fields of the rest. Reading stops only when the
   * stream is exhausted, so the text after the last separator is always a field, even
   * when it is empty (an empty `s` gives one empty field).
   */
  function Split(s: seq<char>, sep: char): (fields: seq<seq<char>>)
    ensures |fields| >= 1
    decreases |s|
  {
    var k := IndexOf(s, sep);
    if k == |s| then [s] else [s[..k]] + Split(s[k + 1..], sep)
  }

  /** The fields of `xs` written one after another with `sep` between neighbours. */
  function Join(sep: char, xs: seq<seq<char>>): seq<char>
  {
    if |xs| == 0 then []
    else if |xs| == 1 then xs[0]
    else xs[0] + [sep] + Join(sep, xs[1..])
  }

  lemma {:induction false} CountAppend(a: seq<char>, b: seq<char>, c: char)
    ensures Count(a + b, c) == Count(a, c) + Count(b, c)
  {
    if a == [] {
      assert a + b == b;
    } else {
      assert (a + b)[1..] == a[1..] + b;
      CountAppend(a[1..], b, c);
    }
  }

  lemma {:induction false} CountAbsent(s: seq<char>, c: char)
    requires c !in s
    ensures Count(s, c) == 0
  {
    if s != [] {
      assert s[0] in s;
      CountAbsent(s[1..], c);
    }
  }

  /** Up to and including its first occurrence at `k`, `s` holds `c` once. */
  lemma CountPastFirst(s: seq<char>, c: char, k: nat)
    requires k < |s| && s[k] == c && c !in s[..k]
    ensures Count(s, c) == Count(s[k + 1..], c) + 1
  {
    assert s == s[..k] + [c] + s[k + 1..];
    CountAppend(s[..k] + [c], s[k + 1..], c);
    CountAppend(s[..k], [c], c);
    CountAbsent(s[..k], c);
  }

  /** The loop reads one more field than there are separators. */
  lemma {:induction false} SplitCount(s: seq<char>, sep: char)
    ensures |Split(s, sep)| == Count(s, sep) + 1
    decreases |s|
  {
    var k := IndexOf(s, sep);
    if k == |s| {
      CountAbsent(s, sep);
    } else {
      var tail := s[k + 1..];
      SplitCount(tail, sep);
      IndexOfFirst(s, sep);
      CountPastFirst(s, sep, k);
      assert Split(s, sep) == [s[..k]] + Split(tail, sep);
    }
  }

  /** No field contains the separator. */
  lemma {:induction false} SplitFieldsFree(s: seq<char>, sep: char)
    ensures forall i :: 0 <= i < |Split(s, sep)| ==> sep !in Split(s, sep)[i]
    decreases |s|
  {
    var k := IndexOf(s, sep);
    if k < |s| {
      SplitFieldsFree(s[k + 1..], sep);
      IndexOfFirst(s, sep);
    }
  }

  /** Splitting loses nothing: joining the fields back gives the text. */
  lemma {:induction false} JoinSplit(s: seq<char>, sep: char)
    ensures Join(sep, Split(s, sep)) == s
    decreases |s|
  {
    var k := IndexOf(s, sep);
    if k < |s| {
      var rest := Split(s[k + 1..], sep);
      JoinSplit(s[k + 1..], sep);
      assert Split(s, sep) == [s[..k]] + rest;
      JoinCons(sep, s[..k], rest);
      assert s == s[..k] + [sep] + s[k + 1..];
    }
  }

  /** A field in front of at least one other is followed by the separator. */
  lemma JoinCons(sep: char, x: seq<char>, rest: seq<seq<char>>)
    requires |rest| >= 1
    ensures Join(sep, [x] + rest) == x + [sep] + Join(sep, rest)
  {
    assert ([x] + rest)[1..] == rest;
  }

  /** Splitting the join of separator-free fields gives the fields back. */
  lemma {:induction false} SplitJoin(sep: char, xs: seq<seq<char>>)
    requires |xs| >= 1
    requires forall i :: 0 <= i < |xs| ==> sep !in xs[i]
    ensures Split(Join(sep, xs), sep) == xs
  {
    if |xs| == 1 {
      assert IndexOf(xs[0], sep) == |xs[0]|;
    } else {
      SplitPastField(sep, xs[0], Join(sep, xs[1..]));
      SplitJoin(sep, xs[1..]);
      assert xs == [xs[0]] + xs[1..];
    }
  }

  /** A separator-free field followed by the separator is the first field of the split. */
  lemma SplitPastField(sep: char, x: seq<char>, tail: seq<char>)
    requires sep !in x
    ensures Split(x + [sep] + tail, sep) == [x] + Split(tail, sep)
  {
    var s := x + [sep] + tail;
    assert s == x + ([sep] + tail);
    IndexOfAfterFree(x, [sep] + tail, sep);
    assert s[..|x|] == x;
    assert s[|x| + 1..] == tail;
  }

  /** A search that finds nothing in `a` continues into `b`. */
  lemma {:induction false} IndexOfAfterFree(a: seq<char>, b: seq<char>, c: char)
    requires c !in a
    ensures IndexOf(a + b, c) == |a| + IndexOf(b, c)
  {
    if a != [] {
      assert a[0] in a;
      assert (a + b)[1..] == a[1..] + b;
      IndexOfAfterFree(a[1..], b, c);
    } else {
      assert a + b == b;
    }
  }

  /** Appending one field to a join appends a separator and the field. */
  lemma {:induction false} JoinSnoc(sep: char, xs: seq<seq<char>>, x: seq<char>)
    ensures Join(sep, xs + [x]) == if xs == [] then x else Join(sep, xs) + [sep] + x
  {
    if |xs| == 0 {
      assert xs + [x] == [x];
    } else if |xs| == 1 {
      assert xs + [x] == [xs[0], x];
      assert [xs[0], x][1..] == [x];
    } else {
      assert (xs + [x])[1..] == xs[1..] + [x];
      JoinSnoc(sep, xs[1..], x);
    }
  }

  /** The join of the first `k` fields extends that of the first `k - 1` by a separator and field `k - 1`. */
  lemma JoinPrefixStep(sep: char, xs: seq<seq<char>>, k: nat)
    requires 0 < k <= |xs|
    ensures Join(sep, xs[..k]) == Join(sep, xs[..k - 1]) + (if k == 1 then [] else [sep]) + xs[k - 1]
  {
    JoinSnoc(sep, xs[..k - 1], xs[k - 1]);
    assert xs[..k] == xs[..k - 1] + [xs[k - 1]];
  }

  /** The join of the first `k` fields is no longer than the join of all of them. */
  lemma {:induction false} JoinPrefixLength(sep: char, xs: seq<seq<char>>, k: nat)
    requires k <= |xs|
    ensures |Join(sep, xs[..k])| <= |Join(sep, xs)|
    decreases |xs| - k
  {
    if k < |xs| {
      JoinPrefixLength(sep, xs, k + 1);
      JoinSnoc(sep, xs[..k], xs[k]);
      assert xs[..k + 1] == xs[..k] + [xs[k]];
    } else {
      assert xs[..k] == xs;
    }
  }

  /** A character other than the separator that no field contains is not in their join. */
  lemma {:induction false} JoinExcludes(sep: char, xs: seq<seq<char>>, c: char)
    requires c != sep
    requires forall i :: 0 <= i < |xs| ==> c !in xs[i]
    ensures c !in Join(sep, xs)
  {
    if |xs| > 1 {
      JoinExcludes(sep, xs[1..], c);
      assert c !in xs[0];
    } else if |xs| == 1 {
      assert c !in xs[0];
    }
  }

  lemma ConsSnoc<T>(x: T, xs: seq<T>, y: T)
    ensures [x] + (xs + [y]) == ([x] + xs) + [y]
  {
  }

  /** A separator at the end of the text gives an empty last field. */
  lemma {:induction false} SplitTrailingSeparator(s: seq<char>, sep: char)
    ensures Split(s + [sep], sep) == Split(s, sep) + [[]]
    decreases |s|
  {
    var k := IndexOf(s, sep);
    var t := s + [sep];
    if k == |s| {
      assert Split(t, sep) == [s] + Split([], sep) by {
        IndexOfAfterFree(s, [sep], sep);
        assert t[..k] == s;
        assert t[k + 1..] == [];
      }
    } else {
      var tail := s[k + 1..];
      assert Split(t, sep) == [s[..k]] + Split(tail + [sep], sep) by {
        IndexOfPrefix(s, [sep], sep);
        assert t[..k] == s[..k];
        assert t[k + 1..] == tail + [sep];
      }
      SplitTrailingSeparator(tail, sep);
      assert Split(s, sep) == [s[..k]] + Split(tail, sep);
      ConsSnoc(s[..k], Split(tail, sep), []);
    }
  }

  /** All fields but the last, then the last one with `c` appended. */
  function ExtendLast(fields: seq<seq<char>>, c: char): seq<seq<char>>
    requires |fields| >= 1
  {
    fields[..|fields| - 1] + [fields[|fields| - 1] + [c]]
  }

  lemma ExtendLastCons(x: seq<char>, fields: seq<seq<char>>, c: char)
    requires |fields| >= 1
    ensures ExtendLast([x] + fields, c) == [x] + ExtendLast(fields, c)
  {
    assert ([x] + fields)[..|fields|] == [x] + fields[..|fields| - 1];
  }

  /** A non-separator at the end of the text extends the last field and nothing else. */
  lemma {:induction false} SplitAppendChar(s: seq<char>, sep: char, c: char)
    requires c != sep
    ensures Split(s + [c], sep) == ExtendLast(Split(s, sep), c)
    decreases |s|
  {
    var k := IndexOf(s, sep);
    var t := s + [c];
    if k == |s| {
      assert Split(t, sep) == [t] by {
        IndexOfAfterFree(s, [c], sep);
        assert IndexOf([c], sep) == 1;
      }
    } else {
      var tail := s[k + 1..];
      assert Split(t, sep) == [s[..k]] + Split(tail + [c], sep) by {
        IndexOfPrefix(s, [c], sep);
        assert t[..k] == s[..k];
        assert t[k + 1..] == tail + [c];
      }
      SplitAppendChar(tail, sep, c);
      var rest := Split(tail, sep);
      assert Split(s, sep) == [s[..k]] + rest;
      ExtendLastCons(s[..k], rest, c);
    }
  }

  /** A search that succeeds in `a` is not affected by what follows `a`. */
  lemma {:induction false} IndexOfPrefix(a: seq<char>, b: seq<char>, c: char)
    requires c in a
    ensures IndexOf(a + b, c) == IndexOf(a, c)
  {
    if a[0] != c {
      assert (a + b)[1..] == a[1..] + b;
      assert c in a[1..];
      IndexOfPrefix(a[1..], b, c);
    }
  }
}
