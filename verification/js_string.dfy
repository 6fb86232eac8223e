/**
 * The JavaScript string built-ins the route handlers rely on:
 * `String.prototype.trim` and `String.prototype.split` with a one-character
 * separator, together with the join that undoes the split.
 */
module JsString {

  /**
   * The characters `trim` removes: ECMAScript's WhiteSpace (tab, vertical tab,
   * form feed, space, no-break space, byte order mark and the Unicode space
   * separators) and LineTerminator (line feed, carriage return, line and
   * paragraph separators).
   */
  predicate IsWhitespace(c: char) {
    || c == '\t' || c == '\n' || c == '\U{000B}' || c == '\U{000C}' || c == '\r'
    || c == ' ' || c == '\U{00A0}' || c == '\U{1680}'
    || ('\U{2000}' <= c <= '\U{200A}')
    || c == '\U{2028}' || c == '\U{2029}' || c == '\U{202F}' || c == '\U{205F}'
    || c == '\U{3000}' || c == '\U{FEFF}'
  }

  /** Every character of `s` is whitespace (vacuously so for the empty string). */
  predicate AllWhitespace(s: string) {
    forall i :: 0 <= i < |s| ==> IsWhitespace(s[i])
  }

  /** `s` neither starts nor ends with whitespace. */
  predicate IsTrimmed(s: string) {
    s == [] || (!IsWhitespace(s[0]) && !IsWhitespace(s[|s| - 1]))
  }

  /** `String.prototype.trim`: whitespace removed from both ends. */
  function Trim(s: string): (r: string)
    ensures IsTrimmed(r)
    ensures r == [] <==> AllWhitespace(s)
  {
    if s != [] && IsWhitespace(s[0]) then
      var r := Trim(s[1..]);
      assert AllWhitespace(s[1..]) ==> AllWhitespace(s) by {
        assert forall k :: 1 <= k < |s| ==> s[k] == s[1..][k - 1];
      }
      r
    else if s != [] && IsWhitespace(s[|s| - 1]) then
      var r := Trim(s[..|s| - 1]);
      assert AllWhitespace(s[..|s| - 1]) ==> AllWhitespace(s) by {
        assert forall k :: 0 <= k < |s| - 1 ==> s[k] == s[..|s| - 1][k];
      }
      r
    else s
  }

  /**
   * What trim keeps is a contiguous part of `s` with only whitespace before
   * and after it.
   */
  lemma {:induction false} TrimInfix(s: string) returns (pre: string, post: string)
    ensures s == pre + Trim(s) + post
    ensures AllWhitespace(pre) && AllWhitespace(post)
  {
    if s != [] && IsWhitespace(s[0]) {
      var t := s[1..];
      assert Trim(s) == Trim(t);
      var p, q := TrimInfix(t);
      pre, post := [s[0]] + p, q;
      assert s == [s[0]] + t;
      assert AllWhitespace(pre) by {
        forall k | 0 <= k < |pre| ensures IsWhitespace(pre[k]) {
          if k > 0 { assert pre[k] == p[k - 1]; }
        }
      }
    } else if s != [] && IsWhitespace(s[|s| - 1]) {
      var t := s[..|s| - 1];
      assert Trim(s) == Trim(t);
      var p, q := TrimInfix(t);
      pre, post := p, q + [s[|s| - 1]];
      assert s == t + [s[|s| - 1]];
      assert AllWhitespace(post) by {
        forall k | 0 <= k < |post| ensures IsWhitespace(post[k]) {
          if k < |q| { assert post[k] == q[k]; }
        }
      }
    } else {
      pre, post := [], [];
      assert s == pre + s + post;
    }
  }

  /**
   * Trim is determined by any split of `s` into a whitespace run, a trimmed
   * middle and a whitespace run: the middle is what `trim` returns.
   */
  lemma TrimOfPadded(s: string, pre: string, mid: string, post: string)
    requires s == pre + mid + post
    requires AllWhitespace(pre) && AllWhitespace(post) && IsTrimmed(mid)
    ensures Trim(s) == mid
  {
    var p, q := TrimInfix(s);
    var r := Trim(s);
    if mid == [] {
      assert AllWhitespace(s) by {
        forall k | 0 <= k < |s| ensures IsWhitespace(s[k]) {
          if k < |pre| { assert s[k] == pre[k]; } else { assert s[k] == post[k - |pre|]; }
        }
      }
    } else {
      assert s[|pre|] == mid[0];
      assert r != [];
      // both splits start at the first non-whitespace character ...
      assert s[|p|] == r[0];
      assert |p| == |pre|;
      // ... and end after the last one
      assert s[|pre| + |mid| - 1] == mid[|mid| - 1];
      assert s[|p| + |r| - 1] == r[|r| - 1];
      assert |r| == |mid|;
      assert r == s[|pre|..|pre| + |mid|] == mid;
    }
  }

  /** Trimming a trimmed string changes nothing; in particular trim is idempotent. */
  lemma TrimTrimmed(s: string)
    requires IsTrimmed(s)
    ensures Trim(s) == s
  {
  }

  /** Trimming never introduces a character. */
  lemma TrimNoNewChars(s: string, c: char)
    requires c !in s
    ensures c !in Trim(s)
  {
  }

  /**
   * `s.split(sep)`: the pieces between occurrences of `sep`, in order. There is
   * always at least one piece (`"".split(",")` is `[""]`), and no piece holds `sep`.
   */
  function Split(s: string, sep: char): (r: seq<string>)
    ensures |r| >= 1
    ensures forall k :: 0 <= k < |r| ==> sep !in r[k]
  {
    if s == [] then [[]]
    else
      var rest := Split(s[1..], sep);
      if s[0] == sep then [[]] + rest
      else [[s[0]] + rest[0]] + rest[1..]
  }

  /** `parts.join(sep)`: the pieces with `sep` between neighbours. */
  function Join(parts: seq<string>, sep: char): string {
    if |parts| == 0 then []
    else if |parts| == 1 then parts[0]
    else parts[0] + [sep] + Join(parts[1..], sep)
  }

  /** Joining the pieces of a split gives back the original string. */
  lemma {:induction false} JoinSplit(s: string, sep: char)
    ensures Join(Split(s, sep), sep) == s
  {
    if s != [] {
      JoinSplit(s[1..], sep);
      var rest := Split(s[1..], sep);
      if s[0] != sep {
        if |rest| > 1 {
          assert ([[s[0]] + rest[0]] + rest[1..])[1..] == rest[1..];
        }
      }
    }
  }

  /** Splitting a join of separator-free pieces gives back the pieces. */
  lemma {:induction false} SplitJoin(parts: seq<string>, sep: char)
    requires |parts| >= 1
    requires forall k :: 0 <= k < |parts| ==> sep !in parts[k]
    ensures Split(Join(parts, sep), sep) == parts
  {
    if |parts| == 1 {
      SplitNoSeparator(parts[0], sep);
    } else {
      SplitJoin(parts[1..], sep);
      SplitAround(parts[0], Join(parts[1..], sep), sep);
      SplitNoSeparator(parts[0], sep);
      assert [parts[0]] + parts[1..] == parts;
    }
  }

  /** A string without the separator splits into itself. */
  lemma {:induction false} SplitNoSeparator(s: string, sep: char)
    requires sep !in s
    ensures Split(s, sep) == [s]
  {
    if s != [] {
      assert sep !in s[1..];
      SplitNoSeparator(s[1..], sep);
      assert [s[0]] + s[1..] == s;
    }
  }

  /** Splitting `a + sep + b`: the pieces of `a`, its last piece being the one before the separator, then those of `b`. */
  lemma {:induction false} SplitAround(a: string, b: string, sep: char)
    ensures Split(a + [sep] + b, sep) == Split(a, sep) + Split(b, sep)
  {
    var t := a + [sep] + b;
    if a == [] {
      assert t[0] == sep && t[1..] == b;
    } else {
      assert t[0] == a[0] && t[1..] == a[1..] + [sep] + b;
      SplitAround(a[1..], b, sep);
      var ra, rb := Split(a[1..], sep), Split(b, sep);
      if a[0] == sep {
        assert Split(t, sep) == [[]] + (ra + rb);
      } else {
        assert Split(t, sep) == [[a[0]] + (ra + rb)[0]] + (ra + rb)[1..];
        assert (ra + rb)[0] == ra[0] && (ra + rb)[1..] == ra[1..] + rb;
      }
    }
  }

}
