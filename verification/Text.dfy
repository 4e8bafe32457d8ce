/**
 * The JavaScript string built-ins the game controller relies on, as functions
 * on `seq<char>`: `toLowerCase` (ASCII letters only), `trim`, `startsWith`,
 * `replace` with a string pattern (first occurrence), `replace` with a global
 * one-character regular expression, and the decimal rendering of a number.
 */
module Text {

  predicate IsUpper(c: char) {
    'A' <= c <= 'Z'
  }

  function LowerChar(c: char): (d: char)
    ensures !IsUpper(d)
    ensures !IsUpper(c) ==> d == c
  {
    if IsUpper(c) then (c as int + 32) as char else c
  }

  /** `s.toLowerCase()`, restricted to the ASCII letters. */
  function Lower(s: string): (r: string)
    ensures |r| == |s|
    ensures forall i :: 0 <= i < |s| ==> r[i] == LowerChar(s[i])
  {
    seq(|s|, i requires 0 <= i < |s| => LowerChar(s[i]))
  }

  predicate NoUpper(s: string) {
    forall i :: 0 <= i < |s| ==> !IsUpper(s[i])
  }

  lemma LowerAppend(a: string, b: string)
    ensures Lower(a + b) == Lower(a) + Lower(b)
  {
    assert forall i :: 0 <= i < |a + b| ==> Lower(a + b)[i] == (Lower(a) + Lower(b))[i];
  }

  /** Lowering is the identity on text that has no upper-case letter. */
  lemma LowerOfNoUpper(s: string)
    requires NoUpper(s)
    ensures Lower(s) == s
  {
    assert forall i :: 0 <= i < |s| ==> Lower(s)[i] == s[i];
  }

  /**
   * The characters ECMAScript's `String.prototype.trim` removes: the
   * WhiteSpace and LineTerminator code points.
   */
  predicate IsWhitespace(c: char) {
    || c == '\t' || c == '\n' || c == '\U{000B}' || c == '\U{000C}' || c == '\r'
    || c == ' ' || c == '\U{00A0}' || c == '\U{1680}'
    || ('\U{2000}' <= c <= '\U{200A}')
    || c == '\U{2028}' || c == '\U{2029}' || c == '\U{202F}' || c == '\U{205F}'
    || c == '\U{3000}' || c == '\U{FEFF}'
  }

  predicate AllWhitespace(s: string) {
    forall i :: 0 <= i < |s| ==> IsWhitespace(s[i])
  }

  /** Drops the leading whitespace: what is dropped is all whitespace and what is kept does not start with any. */
  function TrimStart(s: string): (r: string)
    ensures |r| <= |s| && r == s[|s| - |r|..]
    ensures AllWhitespace(s[..|s| - |r|])
    ensures r == [] || !IsWhitespace(r[0])
  {
    if |s| > 0 && IsWhitespace(s[0]) then TrimStart(s[1..]) else s
  }

  /** Drops the trailing whitespace: what is dropped is all whitespace and what is kept does not end with any. */
  function TrimEnd(s: string): (r: string)
    ensures |r| <= |s| && r == s[..|r|]
    ensures AllWhitespace(s[|r|..])
    ensures r == [] || !IsWhitespace(r[|r| - 1])
  {
    if |s| > 0 && IsWhitespace(s[|s| - 1]) then
      var r := TrimEnd(s[..|s| - 1]);
      assert s[|r|..] == s[..|s| - 1][|r|..] + [s[|s| - 1]];
      r
    else s
  }

  /** `s.trim()`: the result neither starts nor ends with whitespace. */
  function Trim(s: string): (r: string)
    ensures |r| <= |s|
    ensures r == [] || (!IsWhitespace(r[0]) && !IsWhitespace(r[|r| - 1]))
  {
    var t := TrimStart(s);
    var r := TrimEnd(t);
    assert r != [] ==> r[0] == t[0];
    r
  }

  /** Cutting a suffix `t` of `s` down to its prefix `r` leaves `s` in three pieces. */
  lemma SliceThree(s: string, t: string, r: string)
    requires |t| <= |s| && t == s[|s| - |t|..] && |r| <= |t| && r == t[..|r|]
    ensures s == s[..|s| - |t|] + r + t[|r|..]
    ensures t[|r|..] == s[|s| - |t| + |r|..]
  {
    var lo := |s| - |t|;
    assert t == r + t[|r|..];
    assert s == s[..lo] + t;
  }

  /** `trim` only cuts whitespace off the two ends: `s` is whitespace, then `Trim(s)`, then whitespace. */
  lemma TrimSplit(s: string) returns (left: string, right: string)
    ensures AllWhitespace(left) && AllWhitespace(right)
    ensures s == left + Trim(s) + right
  {
    var t := TrimStart(s);
    var r := TrimEnd(t);
    assert Trim(s) == r;
    left, right := s[..|s| - |t|], t[|r|..];
    SliceThree(s, t, r);
  }

  /** `s.startsWith(p)`. */
  predicate StartsWith(s: string, p: string) {
    |p| <= |s| && s[..|p|] == p
  }

  /** `p` occurs in `s` at index `k`. */
  predicate OccursAt(s: string, p: string, k: nat) {
    k + |p| <= |s| && s[k..k + |p|] == p
  }

  /** `s.replace(p, "")` with a string pattern: only the first occurrence of `p` is removed. */
  function ReplaceFirst(s: string, p: string): (r: string)
    ensures r == s || |r| == |s| - |p|
  {
    if |s| < |p| then s
    else if s[..|p|] == p then s[|p|..]
    else [s[0]] + ReplaceFirst(s[1..], p)
  }

  /** `s.replace(/c/g, "")` for a one-character pattern: every `c` is removed, nothing else. */
  function RemoveAll(s: string, c: char): (r: string)
    ensures |r| <= |s|
  {
    if s == [] then []
    else (if s[0] == c then [] else [s[0]]) + RemoveAll(s[1..], c)
  }

  function DigitChar(d: nat): (c: char)
    requires d < 10
    ensures '0' <= c <= '9'
  {
    ('0' as int + d) as char
  }

  /** The decimal rendering JavaScript gives a non-negative integer when it is joined to a string. */
  function Decimal(n: nat): (r: string)
    ensures 0 < |r|
    ensures n < 10 <==> |r| == 1
    ensures forall i :: 0 <= i < |r| ==> '0' <= r[i] <= '9'
  {
    if n < 10 then [DigitChar(n)] else Decimal(n / 10) + [DigitChar(n % 10)]
  }

  /** No character of `s` occurs in `p`. */
  predicate Disjoint(s: string, p: string) {
    forall i :: 0 <= i < |s| ==> s[i] !in p
  }

  /** Text that shares no character with the pattern cannot hold the start of an occurrence, so it is copied through. */
  lemma {:induction false} ReplaceFirstSkipsPrefix(l: string, y: string, p: string)
    requires |p| > 0 && Disjoint(l, p)
    ensures ReplaceFirst(l + y, p) == l + ReplaceFirst(y, p)
  {
    if l == [] {
      assert l + y == y;
    } else {
      var s := l + y;
      assert s[0] == l[0] && l[0] !in p;
      assert s[1..] == l[1..] + y;
      assert Disjoint(l[1..], p) by {
        forall i | 0 <= i < |l[1..]| ensures l[1..][i] !in p {
          assert l[1..][i] == l[i + 1];
        }
      }
      if |s| < |p| {
        assert ReplaceFirst(y, p) == y;
      } else {
        assert s[..|p|][0] == l[0] && p[0] in p;
        assert s[..|p|] != p;
        assert ReplaceFirst(s, p) == [l[0]] + ReplaceFirst(l[1..] + y, p);
        ReplaceFirstSkipsPrefix(l[1..], y, p);
        assert l == [l[0]] + l[1..];
      }
    }
  }

  /** Pattern-free text appended after `y` never takes part in an occurrence, so it is copied through. */
  lemma {:induction false} ReplaceFirstSkipsSuffix(y: string, rest: string, p: string)
    requires |p| > 0 && Disjoint(rest, p)
    ensures ReplaceFirst(y + rest, p) == ReplaceFirst(y, p) + rest
  {
    var s := y + rest;
    if |y| < |p| <= |s| {
      assert s[..|p|][|p| - 1] == rest[|p| - 1 - |y|];
      assert p[|p| - 1] in p;
    }
    if |s| < |p| {
    } else if s[..|p|] == p {
      assert y[..|p|] == p;
      assert s[|p|..] == y[|p|..] + rest;
    } else if y == [] {
      assert s == rest + [];
      ReplaceFirstSkipsPrefix(rest, [], p);
      assert ReplaceFirst([], p) == [];
    } else {
      assert s[1..] == y[1..] + rest;
      ReplaceFirstSkipsSuffix(y[1..], rest, p);
      if |y| >= |p| {
        assert y[..|p|] == s[..|p|];
      } else {
        assert ReplaceFirst(y[1..], p) == y[1..];
        assert y == [y[0]] + y[1..];
      }
    }
  }

  lemma {:induction false} RemoveAllAppend(a: string, b: string, c: char)
    ensures RemoveAll(a + b, c) == RemoveAll(a, c) + RemoveAll(b, c)
  {
    if a == [] {
      assert a + b == b;
    } else {
      var head := if a[0] == c then [] else [a[0]];
      calc {
        RemoveAll(a + b, c);
      == { assert (a + b)[0] == a[0] && (a + b)[1..] == a[1..] + b; }
        head + RemoveAll(a[1..] + b, c);
      == { RemoveAllAppend(a[1..], b, c); }
        head + (RemoveAll(a[1..], c) + RemoveAll(b, c));
      ==
        RemoveAll(a, c) + RemoveAll(b, c);
      }
    }
  }

  lemma {:induction false} RemoveAllKeepsWhitespace(s: string, c: char)
    requires AllWhitespace(s)
    ensures AllWhitespace(RemoveAll(s, c))
  {
    if s != [] {
      RemoveAllKeepsWhitespace(s[1..], c);
    }
  }

  lemma {:induction false} TrimStartSkipsWhitespace(l: string, x: string)
    requires AllWhitespace(l)
    ensures TrimStart(l + x) == TrimStart(x)
  {
    if l == [] {
      assert l + x == x;
    } else {
      assert (l + x)[0] == l[0] && IsWhitespace(l[0]);
      assert (l + x)[1..] == l[1..] + x;
      assert AllWhitespace(l[1..]) by {
        forall i | 0 <= i < |l[1..]| ensures IsWhitespace(l[1..][i]) {
          assert l[1..][i] == l[i + 1];
        }
      }
      TrimStartSkipsWhitespace(l[1..], x);
    }
  }

  lemma {:induction false} TrimEndSkipsWhitespace(x: string, r: string)
    requires AllWhitespace(r)
    ensures TrimEnd(x + r) == TrimEnd(x)
  {
    if r == [] {
      assert x + r == x;
    } else {
      var s := x + r;
      assert s[|s| - 1] == r[|r| - 1] && IsWhitespace(r[|r| - 1]);
      assert s[..|s| - 1] == x + r[..|r| - 1];
      assert AllWhitespace(r[..|r| - 1]) by {
        forall i | 0 <= i < |r| - 1 ensures IsWhitespace(r[i]) {
        }
      }
      TrimEndSkipsWhitespace(x, r[..|r| - 1]);
    }
  }

  lemma {:induction false} TrimStartAppend(z: string, r: string)
    requires TrimStart(z) != []
    ensures TrimStart(z + r) == TrimStart(z) + r
  {
    if |z| > 0 && IsWhitespace(z[0]) {
      assert (z + r)[1..] == z[1..] + r;
      TrimStartAppend(z[1..], r);
    }
  }

  /** Whitespace around a text does not change what `trim` leaves of it. */
  lemma TrimPadded(l: string, z: string, r: string)
    requires AllWhitespace(l) && AllWhitespace(r)
    ensures Trim(l + z + r) == Trim(z)
  {
    assert l + z + r == l + (z + r);
    TrimStartSkipsWhitespace(l, z + r);
    if TrimStart(z) != [] {
      TrimStartAppend(z, r);
      TrimEndSkipsWhitespace(TrimStart(z), r);
    } else {
      var lead := z[..|z| - |TrimStart(z)|];
      assert lead == z;
      TrimStartSkipsWhitespace(z, r);
      TrimStartSkipsWhitespace(r, []);
      assert r + [] == r;
    }
  }

  lemma {:induction false} RemoveAllCounts(s: string, c: char)
    ensures multiset(RemoveAll(s, c)) == multiset(s)[c := 0]
  {
    if s != [] {
      var head := if s[0] == c then [] else [s[0]];
      calc {
        multiset(RemoveAll(s, c));
      ==
        multiset(head) + multiset(RemoveAll(s[1..], c));
      == { RemoveAllCounts(s[1..], c); }
        multiset(head) + multiset(s[1..])[c := 0];
      == { assert s == [s[0]] + s[1..]; }
        multiset(s)[c := 0];
      }
    }
  }

  /** `replace(/c/g, "")` leaves no `c` behind, and everything it leaves was in the input. */
  lemma RemoveAllRemoves(s: string, c: char)
    ensures c !in RemoveAll(s, c)
    ensures multiset(RemoveAll(s, c)) <= multiset(s)
  {
    RemoveAllCounts(s, c);
    assert c !in multiset(RemoveAll(s, c));
  }

  lemma {:induction false} ReplaceFirstShrinks(s: string, p: string)
    ensures multiset(ReplaceFirst(s, p)) <= multiset(s)
  {
    if |s| < |p| {
    } else if s[..|p|] == p {
      assert s == s[..|p|] + s[|p|..];
    } else {
      ReplaceFirstShrinks(s[1..], p);
      assert s == [s[0]] + s[1..];
    }
  }

  /** When `p` does not occur in `s`, replacing its first occurrence changes nothing. */
  lemma {:induction false} ReplaceFirstAbsent(s: string, p: string)
    requires forall k: nat :: !OccursAt(s, p, k)
    ensures ReplaceFirst(s, p) == s
  {
    if |s| < |p| {
    } else {
      assert !OccursAt(s, p, 0);
      assert s[..|p|] != p;
      forall k: nat ensures !OccursAt(s[1..], p, k) {
        assert !OccursAt(s, p, k + 1);
        if k + |p| <= |s[1..]| {
          assert s[1..][k..k + |p|] == s[k + 1..k + 1 + |p|];
        }
      }
      ReplaceFirstAbsent(s[1..], p);
      assert s == [s[0]] + s[1..];
    }
  }

  /** When the first occurrence of `p` in `s` is at `k`, exactly that occurrence is cut out. */
  lemma {:induction false} ReplaceFirstAt(s: string, p: string, k: nat)
    requires OccursAt(s, p, k)
    requires forall j: nat :: j < k ==> !OccursAt(s, p, j)
    ensures ReplaceFirst(s, p) == s[..k] + s[k + |p|..]
  {
    if k == 0 {
      assert s[..|p|] == p;
    } else {
      assert !OccursAt(s, p, 0);
      assert s[..|p|] != p;
      assert OccursAt(s[1..], p, k - 1) by {
        assert s[1..][k - 1..k - 1 + |p|] == s[k..k + |p|];
      }
      forall j: nat | j < k - 1 ensures !OccursAt(s[1..], p, j) {
        assert !OccursAt(s, p, j + 1);
        assert s[1..][j..j + |p|] == s[j + 1..j + 1 + |p|];
      }
      ReplaceFirstAt(s[1..], p, k - 1);
      assert s[..k] == [s[0]] + s[1..][..k - 1];
      assert s[k + |p|..] == s[1..][k - 1 + |p|..];
    }
  }

  /** Every character of a text that fits inside another's multiset satisfies what the other's do. */
  lemma NoUpperShrinks(a: string, b: string)
    requires multiset(a) <= multiset(b) && NoUpper(b)
    ensures NoUpper(a)
  {
    forall i | 0 <= i < |a| ensures !IsUpper(a[i]) {
      assert a[i] in multiset(a);
      assert a[i] in multiset(b);
      assert a[i] in b;
      var j :| 0 <= j < |b| && b[j] == a[i];
    }
  }

  /** `Lower` leaves nothing upper-case. */
  lemma LowerHasNoUpper(s: string)
    ensures NoUpper(Lower(s))
  {
  }

  /** Removing a character that does not occur changes nothing. */
  lemma {:induction false} RemoveAllAbsent(s: string, c: char)
    requires c !in s
    ensures RemoveAll(s, c) == s
  {
    if s != [] {
      assert s[0] != c;
      assert c !in s[1..];
      RemoveAllAbsent(s[1..], c);
      assert s == [s[0]] + s[1..];
    }
  }

  /** `trim` leaves a text with no whitespace at either end as it is. */
  lemma TrimOfTrimmed(s: string)
    requires s == [] || (!IsWhitespace(s[0]) && !IsWhitespace(s[|s| - 1]))
    ensures Trim(s) == s
  {
  }

  /** A pattern cannot occur where its first character does not. */
  lemma NoOccurrenceWithoutHead(s: string, p: string)
    requires |p| > 0 && p[0] !in s
    ensures forall k: nat :: !OccursAt(s, p, k)
  {
    forall k: nat ensures !OccursAt(s, p, k) {
      if k + |p| <= |s| {
        assert s[k..k + |p|][0] == s[k];
      }
    }
  }

  /** Two numbers with the same decimal rendering are equal. */
  lemma {:induction false} DecimalInjective(a: nat, b: nat)
    requires Decimal(a) == Decimal(b)
    ensures a == b
    decreases a
  {
    if a >= 10 && b >= 10 {
      var da, db := Decimal(a / 10), Decimal(b / 10);
      assert Decimal(a) == da + [DigitChar(a % 10)];
      assert Decimal(b) == db + [DigitChar(b % 10)];
      assert |da| == |db|;
      assert da == Decimal(a)[..|da|] == Decimal(b)[..|db|] == db;
      DecimalInjective(a / 10, b / 10);
      assert DigitChar(a % 10) == Decimal(a)[|da|] == DigitChar(b % 10);
    } else {
      assert Decimal(a)[0] == Decimal(b)[0];
    }
  }

  /** Removing every `c` from text holding a single `c` between two `c`-free parts joins the parts. */
  lemma RemoveAllOnce(a: string, b: string, c: char)
    requires c !in a && c !in b
    ensures RemoveAll(a + [c] + b, c) == a + b
  {
    calc {
      RemoveAll(a + [c] + b, c);
    == { RemoveAllAppend(a + [c], b, c); }
      RemoveAll(a + [c], c) + RemoveAll(b, c);
    == { RemoveAllAppend(a, [c], c); }
      RemoveAll(a, c) + RemoveAll([c], c) + RemoveAll(b, c);
    == { assert [c][1..] == []; }
      RemoveAll(a, c) + RemoveAll(b, c);
    == { RemoveAllAbsent(a, c); RemoveAllAbsent(b, c); }
      a + b;
    }
  }

  /** A pattern cannot occur before the first place its first character does. */
  lemma NoOccurrenceBefore(s: string, p: string, k: nat)
    requires |p| > 0 && k <= |s|
    requires forall j :: 0 <= j < k ==> s[j] != p[0]
    ensures forall j: nat :: j < k ==> !OccursAt(s, p, j)
  {
    forall j: nat | j < k ensures !OccursAt(s, p, j) {
      if j + |p| <= |s| {
        assert s[j..j + |p|][0] == s[j];
      }
    }
  }

  lemma NoUpperAppend(a: string, b: string)
    requires NoUpper(a) && NoUpper(b)
    ensures NoUpper(a + b)
  {
    assert forall i :: |a| <= i < |a + b| ==> (a + b)[i] == b[i - |a|];
  }
}
