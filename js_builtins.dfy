/** The pieces of the JavaScript standard library that the key table's logic
    relies on, written out as ECMAScript defines them: String.prototype.trim,
    charAt and split with a one-character separator, and
    Array.prototype.filter and join. Strings are sequences of code points;
    every character trim strips lies in the Basic Multilingual Plane, so
    this agrees with JavaScript's UTF-16 code units for these operations. */
module JsBuiltins {

  /** The WhiteSpace and LineTerminator code points of ECMAScript: TAB, LF,
      VT, FF, CR, SPACE, NO-BREAK SPACE, the other Zs separators, LINE and
      PARAGRAPH SEPARATOR and the byte order mark. */
  predicate IsWhiteSpace(c: char) {
    c == '\t' || c == '\n' || c == '\U{000B}' || c == '\U{000C}' || c == '\r'
    || c == ' ' || c == '\U{00A0}' || c == '\U{1680}'
    || ('\U{2000}' <= c <= '\U{200A}')
    || c == '\U{2028}' || c == '\U{2029}' || c == '\U{202F}' || c == '\U{205F}'
    || c == '\U{3000}' || c == '\U{FEFF}'
  }

  predicate AllWhiteSpace(s: string) {
    forall i :: 0 <= i < |s| ==> IsWhiteSpace(s[i])
  }

  /** Drops leading white space: the result is the suffix of `s` that starts
      at its first non-white-space character. */
  function TrimStart(s: string): (r: string)
    ensures |r| <= |s| && r == s[|s| - |r|..]
    ensures AllWhiteSpace(s[..|s| - |r|])
    ensures r != [] ==> !IsWhiteSpace(r[0])
  {
    if s != [] && IsWhiteSpace(s[0]) then TrimStart(s[1..]) else s
  }

  /** Drops trailing white space: the result is the prefix of `s` that ends
      at its last non-white-space character. */
  function TrimEnd(s: string): (r: string)
    ensures |r| <= |s| && r == s[..|r|]
    ensures AllWhiteSpace(s[|r|..])
    ensures r != [] ==> !IsWhiteSpace(r[|r| - 1])
  {
    if s != [] && IsWhiteSpace(s[|s| - 1]) then TrimEnd(s[..|s| - 1]) else s
  }

  /** String.prototype.trim: the middle of `s` between its leading and its
      trailing white space. */
  function Trim(s: string): (r: string)
    ensures |r| <= |s|
    ensures var rest := TrimStart(s); |r| <= |rest| && r == rest[..|r|]
    ensures r != [] ==> !IsWhiteSpace(r[0]) && !IsWhiteSpace(r[|r| - 1])
  {
    TrimEnd(TrimStart(s))
  }

  /** `!s.trim()` holds exactly when every character of `s` is white space
      (the empty string included). */
  lemma TrimEmptyIff(s: string)
    ensures Trim(s) == [] <==> AllWhiteSpace(s)
  {
    var u := TrimStart(s);
    if Trim(s) == [] {
      assert AllWhiteSpace(u[0..]);
      assert u == [];
      assert s[..|s|] == s;
    }
  }

  /** String.prototype.charAt: the one-character string at position `k`, or
      the empty string when `k` is out of range. */
  function CharAt(s: string, k: int): (r: string)
    ensures |r| <= 1
    ensures r != [] <==> 0 <= k < |s|
    ensures r != [] ==> r[0] == s[k]
  {
    if 0 <= k < |s| then [s[k]] else []
  }

  /** `s.split(sep)[0]` for a one-character separator: everything before the
      first `sep`, or the whole string when there is none. */
  function BeforeFirst(s: string, sep: char): (r: string)
    ensures |r| <= |s| && r == s[..|r|]
    ensures sep !in r
    ensures |r| < |s| ==> s[|r|] == sep
  {
    if s == [] || s[0] == sep then []
    else [s[0]] + BeforeFirst(s[1..], sep)
  }

  /** Array.prototype.filter with a pure predicate: the elements `keep`
      accepts, in their original order. */
  function Filter<T(!new)>(s: seq<T>, keep: T -> bool): (r: seq<T>)
    ensures |r| <= |s|
    ensures forall x :: x in r <==> x in s && keep(x)
  {
    if s == [] then []
    else
      var rest := Filter(s[1..], keep);
      assert forall x :: x in s <==> x == s[0] || x in s[1..];
      if keep(s[0]) then [s[0]] + rest else rest
  }

  /** `a` occurs in `b` with its order kept and possibly other elements in
      between. */
  predicate IsSubsequence<T(==)>(a: seq<T>, b: seq<T>)
    decreases |b|
  {
    if a == [] then true
    else if b == [] then false
    else if a[0] == b[0] then IsSubsequence(a[1..], b[1..])
    else IsSubsequence(a, b[1..])
  }

  /** What filter keeps is a subsequence of its input. */
  lemma {:induction false} FilterIsSubsequence<T(!new)>(s: seq<T>, keep: T -> bool)
    ensures IsSubsequence(Filter(s, keep), s)
  {
    if s != [] {
      FilterIsSubsequence(s[1..], keep);
      if !keep(s[0]) {
        SubsequenceDropHead(Filter(s[1..], keep), s);
      }
    }
  }

  lemma {:induction false} SubsequenceDropHead<T(!new)>(a: seq<T>, b: seq<T>)
    requires b != [] && IsSubsequence(a, b[1..])
    ensures IsSubsequence(a, b)
    decreases |b|, 0
  {
    if a != [] && a[0] == b[0] {
      SubsequenceTail(a, b[1..]);
    }
  }

  lemma {:induction false} SubsequenceTail<T(!new)>(a: seq<T>, b: seq<T>)
    requires a != [] && IsSubsequence(a, b)
    ensures IsSubsequence(a[1..], b)
    decreases |b|, 1
  {
    if a[0] == b[0] {
      SubsequenceDropHead(a[1..], b);
    } else {
      SubsequenceTail(a, b[1..]);
      SubsequenceDropHead(a[1..], b);
    }
  }

  /** Filter keeps every accepted occurrence and drops every rejected one:
      the multiset of its result is that of the input restricted to `keep`. */
  lemma {:induction false} FilterMultiset<T(!new)>(s: seq<T>, keep: T -> bool, x: T)
    ensures multiset(Filter(s, keep))[x] == if keep(x) then multiset(s)[x] else 0
  {
    if s != [] {
      FilterMultiset(s[1..], keep, x);
      assert s == [s[0]] + s[1..];
    }
  }

  lemma {:induction false} FilterConcat<T(!new)>(a: seq<T>, b: seq<T>, keep: T -> bool)
    ensures Filter(a + b, keep) == Filter(a, keep) + Filter(b, keep)
  {
    if a == [] {
      assert a + b == b;
    } else {
      assert (a + b)[0] == a[0] && (a + b)[1..] == a[1..] + b;
      FilterConcat(a[1..], b, keep);
      if keep(a[0]) {
        calc {
          Filter(a + b, keep);
          [a[0]] + Filter(a[1..] + b, keep);
          [a[0]] + (Filter(a[1..], keep) + Filter(b, keep));
          ([a[0]] + Filter(a[1..], keep)) + Filter(b, keep);
        }
      } else {
        assert Filter(a + b, keep) == Filter(a[1..] + b, keep);
      }
    }
  }

  /** Filter on a one-element list. */
  lemma FilterSingleton<T(!new)>(x: T, keep: T -> bool)
    ensures Filter([x], keep) == if keep(x) then [x] else []
  {
    assert [x][1..] == [];
  }

  /** One rejected element between two stretches that are kept whole is
      the only thing filter removes. */
  lemma FilterDropOne<T(!new)>(front: seq<T>, x: T, back: seq<T>, keep: T -> bool)
    requires forall y :: y in front ==> keep(y)
    requires !keep(x)
    requires forall y :: y in back ==> keep(y)
    ensures Filter(front + [x] + back, keep) == front + back
  {
    FilterConcat(front, [x], keep);
    FilterSingleton(x, keep);
    FilterAllKept(front, keep);
    assert Filter(front + [x], keep) == front;
    FilterConcat(front + [x], back, keep);
    FilterAllKept(back, keep);
  }

  /** Filtering with a predicate that accepts everything changes nothing. */
  lemma {:induction false} FilterAllKept<T(!new)>(s: seq<T>, keep: T -> bool)
    requires forall x :: x in s ==> keep(x)
    ensures Filter(s, keep) == s
  {
    if s != [] {
      assert forall x :: x in s[1..] ==> x in s;
      FilterAllKept(s[1..], keep);
    }
  }

  /** The result has the length of the input exactly when nothing is dropped. */
  lemma {:induction false} FilterLengthIff<T(!new)>(s: seq<T>, keep: T -> bool)
    ensures |Filter(s, keep)| == |s| <==> forall x :: x in s ==> keep(x)
  {
    if s != [] {
      FilterLengthIff(s[1..], keep);
      assert forall x :: x in s <==> x == s[0] || x in s[1..];
    }
  }

  /** The result is empty exactly when nothing is accepted. */
  lemma FilterEmptyIff<T(!new)>(s: seq<T>, keep: T -> bool)
    ensures Filter(s, keep) == [] <==> forall x :: x in s ==> !keep(x)
  {
    var r := Filter(s, keep);
    if r != [] {
      assert r[0] in r;
    }
  }

  /** What a predicate accepts and what it rejects add up to the input. */
  lemma {:induction false} FilterPartition<T(!new)>(s: seq<T>, keep: T -> bool, drop: T -> bool)
    requires forall x :: drop(x) == !keep(x)
    ensures |Filter(s, keep)| + |Filter(s, drop)| == |s|
  {
    if s != [] {
      FilterPartition(s[1..], keep, drop);
    }
  }

  /** Filtering twice with the same predicate is filtering once. */
  lemma FilterIdempotent<T(!new)>(s: seq<T>, keep: T -> bool)
    ensures Filter(Filter(s, keep), keep) == Filter(s, keep)
  {
    FilterAllKept(Filter(s, keep), keep);
  }

  /** Two filters commute. */
  lemma {:induction false} FilterCommute<T(!new)>(s: seq<T>, f: T -> bool, g: T -> bool)
    ensures Filter(Filter(s, f), g) == Filter(Filter(s, g), f)
  {
    if s != [] {
      FilterCommute(s[1..], f, g);
    }
  }

  /** The total number of characters in `parts`. */
  function TotalLength(parts: seq<string>): nat {
    if parts == [] then 0 else |parts[0]| + TotalLength(parts[1..])
  }

  /** Array.prototype.join: the parts with `sep` between neighbours. Its
      length is the parts' total plus one `sep` per gap, it begins with the
      first part, and `sep` follows the first part when more parts come. */
  function Join(parts: seq<string>, sep: string): (r: string)
    ensures |r| == TotalLength(parts) + if parts == [] then 0 else (|parts| - 1) * |sep|
    ensures parts != [] ==> |parts[0]| <= |r| && r[..|parts[0]|] == parts[0]
    ensures |parts| >= 2 ==> |parts[0]| + |sep| <= |r| && r[|parts[0]|..|parts[0]| + |sep|] == sep
  {
    if parts == [] then ""
    else if |parts| == 1 then parts[0]
    else
      var rest := Join(parts[1..], sep);
      assert |parts[0] + sep| == |parts[0]| + |sep|;
      parts[0] + sep + rest
  }

  /** One step of join: the first part, `sep`, then the join of the rest. */
  lemma JoinCons(parts: seq<string>, sep: string)
    requires |parts| >= 2
    ensures Join(parts, sep) == parts[0] + sep + Join(parts[1..], sep)
  {
  }

  /** Joining four parts puts `sep` between each neighbouring pair. */
  lemma JoinFour(a: string, b: string, c: string, d: string, sep: string)
    ensures Join([a, b, c, d], sep) == a + sep + b + sep + c + sep + d
  {
    var cd, bcd := [c, d], [b, c, d];
    assert cd[1..] == [d];
    JoinCons(cd, sep);
    var j2 := c + sep + d;
    assert Join(cd, sep) == j2;
    assert bcd[1..] == cd;
    JoinCons(bcd, sep);
    var j3 := b + sep + j2;
    assert Join(bcd, sep) == j3;
    assert [a, b, c, d][1..] == bcd;
    JoinCons([a, b, c, d], sep);
    assert Join([a, b, c, d], sep) == a + sep + j3;
    ConcatRegroup(a, b, c, d, sep);
  }

  lemma ConcatRegroup(a: string, b: string, c: string, d: string, sep: string)
    ensures a + sep + (b + sep + (c + sep + d)) == a + sep + b + sep + c + sep + d
  {
  }
}
