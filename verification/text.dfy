/**
 * The Python `str` operations the core relies on, over ASCII text:
 * `isspace`, `strip`, `lower`, `find`, `endswith`, `isdigit`, `int`, `str`,
 * `split('\n')` and `'\n'.join`.
 */
module Text {

  /** `c.isspace()` on ASCII: space, the controls 9-13 (\t \n \v \f \r) and the separators 28-31. */
  predicate IsSpace(c: char) {
    c == ' ' || 9 <= c as int <= 13 || 28 <= c as int <= 31
  }

  /** No whitespace at either end: exactly the strings `strip()` leaves alone. */
  predicate Trimmed(s: string) {
    s == [] || (!IsSpace(s[0]) && !IsSpace(s[|s| - 1]))
  }

  /** `s.lstrip()`. */
  function StripStart(s: string): string {
    if s != [] && IsSpace(s[0]) then StripStart(s[1..]) else s
  }

  /** `s.rstrip()`. */
  function StripEnd(s: string): string {
    if s != [] && IsSpace(s[|s| - 1]) then StripEnd(s[..|s| - 1]) else s
  }

  /** `s.strip()`. */
  function Strip(s: string): string {
    StripEnd(StripStart(s))
  }

  /** `lstrip()` drops exactly the leading whitespace: a suffix remains, not starting with whitespace. */
  lemma {:induction false} StripStartSpec(s: string)
    ensures |StripStart(s)| <= |s|
    ensures StripStart(s) == s[|s| - |StripStart(s)|..]
    ensures forall i :: 0 <= i < |s| - |StripStart(s)| ==> IsSpace(s[i])
    ensures StripStart(s) == [] || !IsSpace(StripStart(s)[0])
  {
    if s != [] && IsSpace(s[0]) {
      var t := s[1..];
      StripStartSpec(t);
      var r := StripStart(t);
      assert StripStart(s) == r;
      assert s[|s| - |r|..] == t[|t| - |r|..];
      forall i | 0 <= i < |s| - |r|
        ensures IsSpace(s[i])
      {
        if i > 0 {
          assert s[i] == t[i - 1];
        }
      }
    }
  }

  /** `rstrip()` drops exactly the trailing whitespace: a prefix remains, not ending with whitespace. */
  lemma {:induction false} StripEndSpec(s: string)
    ensures var r := StripEnd(s);
      |r| <= |s| && r == s[..|r|] &&
      (forall i :: |r| <= i < |s| ==> IsSpace(s[i])) &&
      (r == [] || !IsSpace(r[|r| - 1]))
  {
    if s != [] && IsSpace(s[|s| - 1]) {
      var t := s[..|s| - 1];
      StripEndSpec(t);
      var r := StripEnd(t);
      assert StripEnd(s) == r;
      assert t[..|r|] == s[..|r|];
      assert forall i :: |r| <= i < |s| - 1 ==> s[i] == t[i];
    }
  }

  /** `strip()` leaves no whitespace at either end. */
  lemma StripIsTrimmed(s: string)
    ensures Trimmed(Strip(s))
  {
    StripStartSpec(s);
    StripEndSpec(StripStart(s));
  }

  /** `strip()` leaves a string with no surrounding whitespace as it is. */
  lemma StripOfTrimmed(s: string)
    requires Trimmed(s)
    ensures Strip(s) == s
  {
  }

  /** Dropping leading whitespace only looks at the front: text added at the back survives. */
  lemma {:induction false} StripStartAppend(s: string, t: string)
    requires StripStart(s) != []
    ensures StripStart(s + t) == StripStart(s) + t
  {
    if IsSpace(s[0]) {
      assert (s + t)[1..] == s[1..] + t;
      StripStartAppend(s[1..], t);
    }
  }

  /** One more trailing whitespace character does not change what `strip()` returns. */
  lemma StripAppendSpace(s: string, c: char)
    requires IsSpace(c)
    ensures Strip(s + [c]) == Strip(s)
  {
    StripStartSpec(s);
    StripStartSpec(s + [c]);
    var x := StripStart(s);
    if x == [] {
      assert forall i :: 0 <= i < |s + [c]| ==> IsSpace((s + [c])[i]);
      assert StripStart(s + [c]) == [];
    } else {
      StripStartAppend(s, [c]);
      assert (x + [c])[..|x + [c]| - 1] == x;
    }
  }

  /** ASCII `lower()` on one character. */
  function LowerChar(c: char): char {
    if 'A' <= c <= 'Z' then (c as int + 32) as char else c
  }

  /** `s.lower()` on ASCII text. */
  function Lower(s: string): string {
    seq(|s|, i requires 0 <= i < |s| => LowerChar(s[i]))
  }

  /** The index of the first `c` in `s`, or `|s|` when there is none. */
  function Find(s: string, c: char): (i: nat)
    ensures i <= |s|
    ensures i < |s| ==> s[i] == c
    ensures forall j :: 0 <= j < i ==> s[j] != c
  {
    if s == [] || s[0] == c then 0 else 1 + Find(s[1..], c)
  }

  /** `c` directly after a prefix free of `c` is the first `c`. */
  lemma FindAfter(a: string, c: char, b: string)
    requires c !in a
    ensures Find(a + [c] + b, c) == |a|
  {
    var s := a + [c] + b;
    var i := Find(s, c);
    assert s[|a|] == c;
    assert forall j :: 0 <= j < |a| ==> s[j] == a[j];
  }

  /** The non-empty pattern `p` occurs in `s` starting at index `j`. */
  predicate OccursAt(s: string, p: string, j: nat) {
    j + |p| <= |s| && s[j..j + |p|] == p
  }

  /** An occurrence in `s[1..]` is an occurrence in `s` one place further on. */
  lemma OccursInTail(s: string, p: string)
    requires s != []
    ensures forall j: nat {:trigger OccursAt(s, p, j)} :: 1 <= j ==> (OccursAt(s, p, j) <==> OccursAt(s[1..], p, j - 1))
  {
  }

  /** The index of the first occurrence of the non-empty pattern `p` in `s`, or `|s|` when there is none. */
  function FindSub(s: string, p: string): (i: nat)
    requires p != []
    ensures i <= |s|
    ensures i < |s| ==> OccursAt(s, p, i)
    ensures forall j: nat :: j < i ==> !OccursAt(s, p, j)
    decreases |s|
  {
    if |s| < |p| then |s|
    else if s[..|p|] == p then 0
    else
      var k := FindSub(s[1..], p);
      OccursInTail(s, p);
      1 + k
  }

  predicate EndsWith(s: string, suffix: string) {
    |suffix| <= |s| && s[|s| - |suffix|..] == suffix
  }

  predicate IsDigit(c: char) {
    '0' <= c <= '9'
  }

  /** `s.isdigit()` on ASCII: non-empty, and every character a decimal digit. */
  predicate IsDigits(s: string) {
    s != [] && forall i :: 0 <= i < |s| ==> IsDigit(s[i])
  }

  /** `int(s)` for a string of decimal digits. */
  function DigitsValue(s: string): nat
    requires forall i :: 0 <= i < |s| ==> IsDigit(s[i])
  {
    if s == [] then 0
    else
      var last := s[|s| - 1];
      assert IsDigit(last);
      10 * DigitsValue(s[..|s| - 1]) + (last as int - '0' as int)
  }

  function DigitChar(d: nat): (c: char)
    requires d < 10
    ensures IsDigit(c) && c as int - '0' as int == d
  {
    ('0' as int + d) as char
  }

  /** `str(n)` for a natural number: its decimal digits, without leading zeros. */
  function NatToString(n: nat): (s: string)
    ensures IsDigits(s)
    ensures s[0] == '0' ==> n == 0
  {
    if n < 10 then [DigitChar(n)] else NatToString(n / 10) + [DigitChar(n % 10)]
  }

  /** `int(str(n)) == n`. */
  lemma {:induction false} NatToStringRoundTrip(n: nat)
    ensures DigitsValue(NatToString(n)) == n
  {
    var s := NatToString(n);
    if n >= 10 {
      NatToStringRoundTrip(n / 10);
      assert s[..|s| - 1] == NatToString(n / 10);
    } else {
      assert s[..0] == [];
    }
  }

  /** `str(n)` for any integer. */
  function IntToString(n: int): string {
    if n < 0 then "-" + NatToString(-n) else NatToString(n)
  }

  /** `s.split('\n')`: the pieces between newlines, always at least one. */
  function Split(s: string): (r: seq<string>)
    ensures |r| >= 1
    decreases |s|
  {
    var i := Find(s, '\n');
    if i == |s| then [s] else [s[..i]] + Split(s[i + 1..])
  }

  /** `'\n'.join(ps)`. */
  function Join(ps: seq<string>): string {
    if ps == [] then "" else if |ps| == 1 then ps[0] else ps[0] + "\n" + Join(ps[1..])
  }

  /** Joining a first piece onto at least one more puts a newline between them. */
  lemma JoinCons(a: string, ps: seq<string>)
    requires |ps| >= 1
    ensures Join([a] + ps) == a + "\n" + Join(ps)
  {
    assert ([a] + ps)[1..] == ps;
  }

  /** No piece of a split holds a newline. */
  lemma {:induction false} SplitPieces(s: string)
    ensures forall k :: 0 <= k < |Split(s)| ==> '\n' !in Split(s)[k]
    decreases |s|
  {
    var i := Find(s, '\n');
    if i < |s| {
      var rest := s[i + 1..];
      SplitPieces(rest);
      var ps := Split(s);
      assert ps == [s[..i]] + Split(rest);
      assert '\n' !in s[..i];
      forall k | 0 <= k < |ps|
        ensures '\n' !in ps[k]
      {
        if k > 0 {
          assert ps[k] == Split(rest)[k - 1];
        }
      }
    } else {
      assert Split(s) == [s];
    }
  }

  /** A text is the part before one of its newlines, the newline, and the rest. */
  lemma AroundNewline(s: string, i: nat)
    requires i < |s| && s[i] == '\n'
    ensures s[..i] + "\n" + s[i + 1..] == s
  {
    assert s[..i] + "\n" == s[..i + 1];
  }

  /** Joining the pieces of a split gives the text back. */
  lemma {:induction false} JoinSplit(s: string)
    ensures Join(Split(s)) == s
    decreases |s|
  {
    var i := Find(s, '\n');
    if i < |s| {
      var a, rest := s[..i], s[i + 1..];
      assert '\n' !in a;
      AroundNewline(s, i);
      SplitCons(a, rest);
      JoinSplit(rest);
      JoinCons(a, Split(rest));
    } else {
      assert Split(s) == [s];
      assert Join([s]) == s;
    }
  }

  /** A newline-free first piece is split off at the newline after it. */
  lemma SplitCons(a: string, rest: string)
    requires '\n' !in a
    ensures Split(a + "\n" + rest) == [a] + Split(rest)
  {
    var s := a + "\n" + rest;
    FindAfter(a, '\n', rest);
    assert s[..|a|] == a && s[|a| + 1..] == rest;
  }

  /** Splitting a join of newline-free pieces gives the pieces back. */
  lemma {:induction false} SplitJoin(ps: seq<string>)
    requires |ps| >= 1
    requires forall k :: 0 <= k < |ps| ==> '\n' !in ps[k]
    ensures Split(Join(ps)) == ps
  {
    if |ps| == 1 {
      assert Find(ps[0], '\n') == |ps[0]|;
    } else {
      var rest := Join(ps[1..]);
      assert Join(ps) == ps[0] + "\n" + rest;
      SplitCons(ps[0], rest);
      SplitJoin(ps[1..]);
      assert ps == [ps[0]] + ps[1..];
    }
  }

  predicate IsSuffix(a: string, b: string) {
    |a| <= |b| && b[|b| - |a|..] == a
  }

  /** The join of the last pieces is a suffix of the join of all of them. */
  lemma {:induction false} JoinTailIsSuffix(ps: seq<string>, k: nat)
    requires k < |ps|
    ensures IsSuffix(Join(ps[k..]), Join(ps))
  {
    if k > 0 {
      JoinTailIsSuffix(ps[1..], k - 1);
      assert ps[1..][k - 1..] == ps[k..];
      var whole := Join(ps);
      var tail := Join(ps[1..]);
      assert whole == ps[0] + "\n" + tail;
      assert whole[|whole| - |tail|..] == tail;
    }
  }
}
