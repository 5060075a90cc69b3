/** Optional values, for the source's `None`. */
module Wrappers {
  datatype Option<+T> = None | Some(value: T)
}

/**
  The few Python string operations the engine relies on, with Python's
  semantics: `str.strip()`, `sub in s`, `s.split(sep)`, `sep.join(parts)`,
  `s.lower()` (ASCII part) and `int(s)`.
*/
module Text {
  import opened Wrappers

  /** The characters Python's `str.isspace()` accepts. */
  predicate IsSpace(c: char) {
    || c == ' '
    || ('\t' <= c <= '\r')
    || ('\U{1c}' <= c <= '\U{1f}')
    || c == '\U{85}' || c == '\U{a0}' || c == '\U{1680}'
    || ('\U{2000}' <= c <= '\U{200a}')
    || c == '\U{2028}' || c == '\U{2029}' || c == '\U{202f}' || c == '\U{205f}' || c == '\U{3000}'
  }

  function TrimStart(s: string): (r: string)
    ensures |r| <= |s| && r == s[|s| - |r|..]
    ensures forall i :: 0 <= i < |s| - |r| ==> IsSpace(s[i])
    ensures r == [] || !IsSpace(r[0])
  {
    if s != [] && IsSpace(s[0]) then TrimStart(s[1..]) else s
  }

  function TrimEnd(s: string): (r: string)
    ensures |r| <= |s| && r == s[..|r|]
    ensures forall i :: |r| <= i < |s| ==> IsSpace(s[i])
    ensures r == [] || !IsSpace(r[|r| - 1])
  {
    if s != [] && IsSpace(s[|s| - 1]) then TrimEnd(s[..|s| - 1]) else s
  }

  /** Python truthiness of an optional string: present and non-empty. */
  predicate Truthy(o: Option<string>) {
    o.Some? && o.value != ""
  }

  /** `r` sits in `s` at position `i` with only whitespace before and after it. */
  predicate PaddedAt(s: string, r: string, i: nat) {
    i + |r| <= |s| && r == s[i..i + |r|] &&
    (forall k :: 0 <= k < i ==> IsSpace(s[k])) && (forall k :: i + |r| <= k < |s| ==> IsSpace(s[k]))
  }

  /** `s.strip()`: the infix of `s` left once the whitespace around it is cut away. */
  function Strip(s: string): (r: string)
    ensures r == [] || (!IsSpace(r[0]) && !IsSpace(r[|r| - 1]))
    ensures forall c :: c in r ==> c in s
  {
    TrimEnd(TrimStart(s))
  }

  /** Whitespace cut from the front, then from the back of what is left, leaves a padded infix. */
  lemma PaddedAfterTrims(s: string, t: string, r: string, i: nat)
    requires i + |t| == |s| && t == s[i..] && (forall k :: 0 <= k < i ==> IsSpace(s[k]))
    requires |r| <= |t| && r == t[..|r|] && (forall k :: |r| <= k < |t| ==> IsSpace(t[k]))
    ensures PaddedAt(s, r, i)
  {
    assert s[i..i + |r|] == r by {
      assert s[i..i + |r|] == s[i..][..|r|];
    }
    forall k | i + |r| <= k < |s| ensures IsSpace(s[k]) {
      assert s[k] == t[k - i];
    }
  }

  /** `Strip` keeps the infix that starts where the leading whitespace ends. */
  lemma StripPaddedAt(s: string)
    ensures PaddedAt(s, Strip(s), |s| - |TrimStart(s)|)
  {
    var t := TrimStart(s);
    var r := TrimEnd(t);
    assert r == Strip(s);
    PaddedAfterTrims(s, t, r, |s| - |t|);
  }

  /** `Strip` is empty exactly when every character is whitespace. */
  lemma StripEmptyIff(s: string)
    ensures Strip(s) == [] <==> forall k :: 0 <= k < |s| ==> IsSpace(s[k])
  {
    var t := TrimStart(s);
    var i := |s| - |t|;
    assert t != [] ==> IsSpace(t[0]) == IsSpace(s[i]);
    assert TrimEnd(t) == [] ==> t == [];
  }

  /**
    What `Strip` keeps: an infix of `s` with only whitespace around it, no
    whitespace at its ends, and empty only when `s` is all whitespace. By
    `StripUnique`, these facts pin it down.
  */
  lemma StripPadded(s: string)
    ensures Strip(s) == [] || (!IsSpace(Strip(s)[0]) && !IsSpace(Strip(s)[|Strip(s)| - 1]))
    ensures exists i: nat :: PaddedAt(s, Strip(s), i)
    ensures Strip(s) == [] <==> forall k :: 0 <= k < |s| ==> IsSpace(s[k])
  {
    StripPaddedAt(s);
    StripEmptyIff(s);
  }

  /** Any whitespace-padded infix of `s` with no whitespace at its ends, empty only for an all-whitespace `s`, is `Strip(s)`. */
  lemma StripUnique(s: string, t: string, i: nat)
    requires PaddedAt(s, t, i)
    requires t == [] || (!IsSpace(t[0]) && !IsSpace(t[|t| - 1]))
    requires t == [] ==> forall k :: 0 <= k < |s| ==> IsSpace(s[k])
    ensures t == Strip(s)
  {
    var r := Strip(s);
    StripPadded(s);
    var j: nat :| PaddedAt(s, r, j);
    if t != [] {
      assert s[i] == t[0] && s[i + |t| - 1] == t[|t| - 1];
      assert r != [];
      assert s[j] == r[0] && s[j + |r| - 1] == r[|r| - 1];
      assert i == j && |t| == |r|;
    }
  }

  lemma StripIdempotent(s: string)
    ensures Strip(Strip(s)) == Strip(s)
  {
    var t := Strip(s);
    assert TrimStart(t) == t;
  }

  lemma StripNoSpace(s: string)
    requires forall i :: 0 <= i < |s| ==> !IsSpace(s[i])
    ensures Strip(s) == s
  {
    assert TrimStart(s) == s;
  }

  /** `sub` occurs in `s` starting at position `j`. */
  predicate OccursAt(s: string, sub: string, j: nat) {
    j + |sub| <= |s| && s[j..j + |sub|] == sub
  }

  lemma OccursShift(s: string, sub: string, j: nat)
    requires s != []
    ensures OccursAt(s, sub, j + 1) <==> OccursAt(s[1..], sub, j)
  {
    if j + 1 + |sub| <= |s| {
      assert s[1..][j..j + |sub|] == s[j + 1..j + 1 + |sub|];
    }
  }

  /** A non-empty `sub` can only occur where its first character does. */
  lemma OccursAtHead(s: string, sub: string, j: nat)
    requires sub != []
    ensures OccursAt(s, sub, j) ==> s[j] == sub[0]
  {
    if OccursAt(s, sub, j) {
      assert s[j..j + |sub|][0] == s[j];
    }
  }

  /** `s.find(sub)`, with `None` for -1: the first position where `sub` occurs. */
  function IndexOf(s: string, sub: string): (r: Option<nat>)
    ensures r.Some? ==> OccursAt(s, sub, r.value) && forall j: nat :: j < r.value ==> !OccursAt(s, sub, j)
    ensures r.None? ==> forall j: nat :: !OccursAt(s, sub, j)
    decreases |s|
  {
    if |s| < |sub| then None
    else if s[..|sub|] == sub then Some(0)
    else
      var tail := IndexOf(s[1..], sub);
      assert !OccursAt(s, sub, 0) by { assert s[0..|sub|] == s[..|sub|]; }
      forall j: nat | 1 <= j ensures OccursAt(s, sub, j) <==> OccursAt(s[1..], sub, j - 1) {
        OccursShift(s, sub, j - 1);
      }
      match tail
      case None => None
      case Some(k) => Some(k + 1)
  }

  /** Python's `sub in s`. */
  predicate Contains(s: string, sub: string) {
    IndexOf(s, sub).Some?
  }

  lemma ContainsChar(s: string, c: char)
    ensures Contains(s, [c]) <==> c in s
  {
    if c in s {
      var j :| 0 <= j < |s| && s[j] == c;
      assert OccursAt(s, [c], j);
    }
    if Contains(s, [c]) {
      var j := IndexOf(s, [c]).value;
      assert s[j..j + 1] == [c];
      assert s[j] == c;
    }
  }

  /** A string placed between two others is found in the whole. */
  lemma ContainsInfix(a: string, sub: string, b: string)
    ensures Contains(a + sub + b, sub)
  {
    var s := a + sub + b;
    assert s[|a|..|a| + |sub|] == sub;
    assert OccursAt(s, sub, |a|);
  }

  /** What is found in a string is still found once more text follows it. */
  lemma ContainsExtend(s: string, sub: string, t: string)
    requires Contains(s, sub)
    ensures Contains(s + t, sub)
  {
    var j := IndexOf(s, sub).value;
    assert (s + t)[j..j + |sub|] == s[j..j + |sub|];
    assert OccursAt(s + t, sub, j);
  }

  /** Trailing whitespace is cut no further than the last non-whitespace character. */
  lemma {:induction false} TrimEndKeeps(x: string, q: string)
    requires x != [] && !IsSpace(x[|x| - 1])
    ensures TrimEnd(x + q) == x + TrimEnd(q)
    decreases |q|
  {
    if q == [] {
      assert x + q == x;
    } else if IsSpace(q[|q| - 1]) {
      assert (x + q)[..|x + q| - 1] == x + q[..|q| - 1];
      TrimEndKeeps(x, q[..|q| - 1]);
    } else {
      assert (x + q)[|x + q| - 1] == q[|q| - 1];
    }
  }

  /** Stripping a text that opens with `x`, whose ends are not whitespace, keeps `x` at its head. */
  lemma StripKeepsHead(x: string, q: string)
    requires x != [] && !IsSpace(x[0]) && !IsSpace(x[|x| - 1])
    ensures x <= Strip(x + q)
  {
    assert (x + q)[0] == x[0];
    assert TrimStart(x + q) == x + q;
    TrimEndKeeps(x, q);
  }

  /** The same, for any text `s` that opens with `x`. */
  lemma StripKeepsPrefix(x: string, s: string)
    requires x != [] && !IsSpace(x[0]) && !IsSpace(x[|x| - 1])
    requires |x| <= |s| && s[..|x|] == x
    ensures x <= Strip(s)
  {
    assert s == x + s[|x|..];
    StripKeepsHead(x, s[|x|..]);
  }

  /** `sep.join(parts)`. */
  function Join(parts: seq<string>, sep: string): string
    requires |parts| >= 1
  {
    if |parts| == 1 then parts[0] else parts[0] + sep + Join(parts[1..], sep)
  }

  /**
    `s.split(sep)` for a non-empty separator (Python raises on an empty one):
    the pieces between the non-overlapping occurrences of `sep`, found from
    the left. Joining them back with `sep` gives `s`, and no piece contains `sep`.
  */
  function Split(s: string, sep: string): (parts: seq<string>)
    requires sep != []
    ensures |parts| >= 1
    ensures Join(parts, sep) == s
    ensures forall i :: 0 <= i < |parts| ==> !Contains(parts[i], sep)
    decreases |s|
  {
    match IndexOf(s, sep)
    case None => [s]
    case Some(i) =>
      var head, rest := s[..i], Split(s[i + |sep|..], sep);
      assert !Contains(head, sep) by {
        forall j: nat ensures OccursAt(head, sep, j) ==> OccursAt(s, sep, j) {
          if j + |sep| <= |head| {
            assert head[j..j + |sep|] == s[j..j + |sep|];
          }
        }
      }
      assert ([head] + rest)[1..] == rest;
      assert s == head + sep + s[i + |sep|..];
      [head] + rest
  }

  /**
    The split is Python's, from the left: with an occurrence of `sep`, the
    first piece is what precedes the first one and the rest is the split of
    what follows it; without one, `s` stays whole. Together with the joining
    and separator-free facts of `Split`, every piece is fixed.
  */
  lemma {:induction false} SplitLeftmost(s: string, sep: string)
    requires sep != []
    ensures IndexOf(s, sep).Some? ==>
      var i := IndexOf(s, sep).value;
      |Split(s, sep)| >= 2 && Split(s, sep)[0] == s[..i] && Split(s, sep)[1..] == Split(s[i + |sep|..], sep)
    ensures IndexOf(s, sep).None? ==> Split(s, sep) == [s]
  {
    if IndexOf(s, sep).Some? {
      var i := IndexOf(s, sep).value;
      assert Split(s, sep) == [s[..i]] + Split(s[i + |sep|..], sep);
    }
  }

  /** A string in which `sep` cannot occur splits into itself alone. */
  lemma SplitWithout(s: string, sep: string)
    requires sep != [] && !Contains(s, sep)
    ensures Split(s, sep) == [s]
  {
  }

  /** A string lacking the first character of `sub` does not contain `sub`. */
  lemma NotContainsHead(s: string, sub: string)
    requires sub != [] && sub[0] !in s
    ensures !Contains(s, sub)
  {
    forall j: nat ensures !OccursAt(s, sub, j) {
      OccursAtHead(s, sub, j);
    }
  }

  /** Splitting `a + sep + b` gives back `a` and `b` when no space occurs in either and `sep` begins with a space. */
  lemma SplitPair(a: string, b: string, sep: string)
    requires sep != [] && sep[0] == ' '
    requires ' ' !in a && ' ' !in b
    ensures Split(a + sep + b, sep) == [a, b]
  {
    var s := a + sep + b;
    assert OccursAt(s, sep, |a|) by { assert s[|a|..|a| + |sep|] == sep; }
    forall j: nat | j < |a| ensures !OccursAt(s, sep, j) {
      OccursAtHead(s, sep, j);
      assert s[j] == a[j];
    }
    assert IndexOf(s, sep) == Some(|a|);
    assert s[|a| + |sep|..] == b;
    NotContainsHead(b, sep);
    SplitWithout(b, sep);
  }

  /** The ASCII part of Python's `str.lower()`. */
  function LowerChar(c: char): char {
    if 'A' <= c <= 'Z' then (c as int + 32) as char else c
  }

  /**
    `s.lower()` on ASCII letters: no capital is left, every capital becomes
    the small letter 32 code points above it, and nothing else changes.
  */
  function Lower(s: string): (r: string)
    ensures |r| == |s|
    ensures forall i :: 0 <= i < |r| ==> !('A' <= r[i] <= 'Z')
    ensures forall i :: 0 <= i < |s| && !('A' <= s[i] <= 'Z') ==> r[i] == s[i]
    ensures forall i :: 0 <= i < |s| && 'A' <= s[i] <= 'Z' ==> 'a' <= r[i] <= 'z' && r[i] as int == s[i] as int + 32
  {
    seq(|s|, i requires 0 <= i < |s| => LowerChar(s[i]))
  }

  lemma LowerIdempotent(s: string)
    ensures Lower(Lower(s)) == Lower(s)
  {
  }

  predicate IsDigit(c: char) {
    '0' <= c <= '9'
  }

  predicate AllDigits(s: string) {
    forall i :: 0 <= i < |s| ==> IsDigit(s[i])
  }

  /** The decimal value of a run of ASCII digits. */
  function DigitsValue(s: string): nat
    requires AllDigits(s)
  {
    if s == [] then 0 else DigitsValue(s[..|s| - 1]) * 10 + (s[|s| - 1] as int - '0' as int)
  }

  /**
    Python's `int(s)` on a string: surrounding whitespace, an optional sign,
    then at least one ASCII digit; anything else raises `ValueError` (`None`).
  */
  function ParseInt(s: string): (r: Option<int>)
  {
    var t := Strip(s);
    if t != [] && (t[0] == '+' || t[0] == '-') then
      var d := t[1..];
      if d != [] && AllDigits(d) then Some(if t[0] == '-' then 0 - DigitsValue(d) else DigitsValue(d) as int)
      else None
    else if t != [] && AllDigits(t) then Some(DigitsValue(t))
    else None
  }

  /** A non-empty run of ASCII digits reads as its decimal value. */
  lemma ParseDigits(d: string)
    requires d != [] && AllDigits(d)
    ensures ParseInt(d) == Some(DigitsValue(d))
  {
    StripNoSpace(d);
  }
}
