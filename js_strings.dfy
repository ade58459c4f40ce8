/**
 * The JavaScript string built-ins the core relies on, over `seq<char>`:
 * `String.prototype.trim`, `toLowerCase`, `includes`, `Number.prototype.toString`
 * and `Array.prototype.join(',')`, each with the property that gives it meaning.
 */
module JsStrings {

  // ---------------------------------------------------------------------------
  // trim
  // ---------------------------------------------------------------------------

  /** The ECMAScript WhiteSpace and LineTerminator code points, which `trim` removes. */
  predicate IsWhiteSpace(c: char) {
    c == '\t' || c == '\n' || c == '\U{B}' || c == '\U{C}' || c == '\r' || c == ' '
    || c == '\U{A0}' || c == '\U{1680}' || ('\U{2000}' <= c <= '\U{200A}')
    || c == '\U{2028}' || c == '\U{2029}' || c == '\U{202F}' || c == '\U{205F}'
    || c == '\U{3000}' || c == '\U{FEFF}'
  }

  /** `s` with its leading white space removed. */
  function TrimStart(s: string): string {
    if s != [] && IsWhiteSpace(s[0]) then TrimStart(s[1..]) else s
  }

  /** `TrimStart` keeps a suffix of `s` that starts with a non-space, and removes only white space. */
  lemma {:induction false} TrimStartShape(s: string)
    ensures |TrimStart(s)| <= |s| && TrimStart(s) == s[|s| - |TrimStart(s)|..]
    ensures forall i :: 0 <= i < |s| - |TrimStart(s)| ==> IsWhiteSpace(s[i])
    ensures TrimStart(s) != [] ==> !IsWhiteSpace(TrimStart(s)[0])
  {
    if s != [] && IsWhiteSpace(s[0]) {
      var rest := s[1..];
      TrimStartShape(rest);
      var k := |rest| - |TrimStart(rest)|;
      assert TrimStart(s) == TrimStart(rest) == rest[k..];
      assert rest[k..] == s[k + 1..];
      forall i | 0 <= i < k + 1 ensures IsWhiteSpace(s[i]) {
        if i > 0 {
          assert s[i] == rest[i - 1];
        }
      }
    }
  }

  /** `s` with its trailing white space removed. */
  function TrimEnd(s: string): string {
    if s != [] && IsWhiteSpace(s[|s| - 1]) then TrimEnd(s[..|s| - 1]) else s
  }

  /** `TrimEnd` keeps a prefix of `s` that ends with a non-space, and removes only white space. */
  lemma {:induction false} TrimEndShape(s: string)
    ensures |TrimEnd(s)| <= |s| && TrimEnd(s) == s[..|TrimEnd(s)|]
    ensures forall i :: |TrimEnd(s)| <= i < |s| ==> IsWhiteSpace(s[i])
    ensures TrimEnd(s) != [] ==> !IsWhiteSpace(TrimEnd(s)[|TrimEnd(s)| - 1])
  {
    if s != [] && IsWhiteSpace(s[|s| - 1]) {
      var front := s[..|s| - 1];
      TrimEndShape(front);
      var n := |TrimEnd(front)|;
      assert TrimEnd(s) == TrimEnd(front) == front[..n];
      assert front[..n] == s[..n];
      forall i | n <= i < |s| ensures IsWhiteSpace(s[i]) {
        if i < |s| - 1 {
          assert s[i] == front[i];
        }
      }
    }
  }

  /** `String.prototype.trim`: `s` without its leading and trailing white space. */
  function Trim(s: string): string {
    TrimEnd(TrimStart(s))
  }

  /**
   * `Trim` keeps the part of `s` between its leading and its trailing white space, which
   * starts and ends with a non-space character.
   */
  lemma TrimShape(s: string)
    ensures 0 <= LeadingSpaces(s) && LeadingSpaces(s) + |Trim(s)| <= |s|
    ensures Trim(s) == s[LeadingSpaces(s)..LeadingSpaces(s) + |Trim(s)|]
    ensures forall i :: 0 <= i < LeadingSpaces(s) ==> IsWhiteSpace(s[i])
    ensures forall i :: LeadingSpaces(s) + |Trim(s)| <= i < |s| ==> IsWhiteSpace(s[i])
    ensures Trim(s) != [] ==> !IsWhiteSpace(Trim(s)[0]) && !IsWhiteSpace(Trim(s)[|Trim(s)| - 1])
  {
    var t := TrimStart(s);
    var r := TrimEnd(t);
    var k := LeadingSpaces(s);
    TrimStartShape(s);
    TrimEndShape(t);
    assert t == s[k..];
    forall i | k + |r| <= i < |s| ensures IsWhiteSpace(s[i]) {
      assert s[i] == t[i - k];
    }
  }

  /** The number of white-space characters `Trim` removes from the front of `s`. */
  function LeadingSpaces(s: string): int {
    |s| - |TrimStart(s)|
  }

  // ---------------------------------------------------------------------------
  // toLowerCase
  // ---------------------------------------------------------------------------

  /** Lower-case mapping of one character, on the ASCII letters. */
  function LowerChar(c: char): char {
    if 'A' <= c <= 'Z' then (c as int - 'A' as int + 'a' as int) as char else c
  }

  /** `String.prototype.toLowerCase`, restricted to the ASCII letters. */
  function ToLower(s: string): (r: string)
    ensures |r| == |s|
  {
    seq(|s|, i requires 0 <= i < |s| => LowerChar(s[i]))
  }

  /**
   * `ToLower` leaves no upper-case letter: each one becomes the lower-case letter at the
   * same place in the alphabet, and every other character is kept as it is.
   */
  lemma ToLowerShape(s: string)
    ensures forall i :: 0 <= i < |s| ==> !('A' <= ToLower(s)[i] <= 'Z')
    ensures forall i :: 0 <= i < |s| && 'A' <= s[i] <= 'Z' ==>
      'a' <= ToLower(s)[i] <= 'z' && ToLower(s)[i] as int - 'a' as int == s[i] as int - 'A' as int
    ensures forall i :: 0 <= i < |s| && !('A' <= s[i] <= 'Z') ==> ToLower(s)[i] == s[i]
  {
  }

  // ---------------------------------------------------------------------------
  // includes
  // ---------------------------------------------------------------------------

  /** `t` occurs in `s` starting at index `i`. */
  predicate OccursAt(s: string, t: string, i: nat) {
    i + |t| <= |s| && s[i..i + |t|] == t
  }

  /** `String.prototype.includes`: whether `t` occurs in `s`, looked for from the front. */
  function Includes(s: string, t: string): bool {
    if |s| < |t| then false
    else if s[..|t|] == t then true
    else Includes(s[1..], t)
  }

  /** `Includes` holds exactly when `t` occurs in `s` at some index. */
  lemma {:induction false} IncludesOccurs(s: string, t: string)
    ensures Includes(s, t) <==> exists i: nat :: i <= |s| && OccursAt(s, t, i)
  {
    if |s| < |t| {
      assert forall i: nat :: i <= |s| ==> !OccursAt(s, t, i);
    } else if s[..|t|] == t {
      assert OccursAt(s, t, 0);
    } else {
      IncludesOccurs(s[1..], t);
      assert forall i: nat :: 1 <= i <= |s| ==> (OccursAt(s, t, i) <==> OccursAt(s[1..], t, i - 1));
      if Includes(s[1..], t) {
        var j: nat :| j <= |s[1..]| && OccursAt(s[1..], t, j);
        assert OccursAt(s, t, j + 1);
      }
      assert !OccursAt(s, t, 0);
    }
  }

  // ---------------------------------------------------------------------------
  // Number.prototype.toString on non-negative integers, and its inverse
  // ---------------------------------------------------------------------------

  predicate IsDigit(c: char) {
    '0' <= c <= '9'
  }

  function DigitChar(d: nat): (c: char)
    requires d < 10
    ensures IsDigit(c)
  {
    ('0' as int + d) as char
  }

  function DigitValue(c: char): nat
    requires IsDigit(c)
  {
    c as int - '0' as int
  }

  /** The decimal notation of `n`, without sign: a non-empty run of digits. */
  function NumberToString(n: nat): (s: string)
    ensures s != []
    ensures forall i :: 0 <= i < |s| ==> IsDigit(s[i])
  {
    if n < 10 then [DigitChar(n)] else NumberToString(n / 10) + [DigitChar(n % 10)]
  }

  /** The notation of `n` has no leading zero: it starts with `0` only when it is `"0"`. */
  lemma {:induction false} NumberToStringNoLeadingZero(n: nat)
    ensures NumberToString(n)[0] == '0' <==> n == 0
    ensures |NumberToString(n)| == 1 || NumberToString(n)[0] != '0'
  {
    if n >= 10 {
      NumberToStringNoLeadingZero(n / 10);
      assert NumberToString(n)[0] == NumberToString(n / 10)[0];
    }
  }

  /** The value of a run of decimal digits (what `parseInt(s, 10)` gives for such a run). */
  function ParseDecimal(s: string): nat
    requires forall i :: 0 <= i < |s| ==> IsDigit(s[i])
  {
    if s == [] then 0 else ParseDecimal(s[..|s| - 1]) * 10 + DigitValue(s[|s| - 1])
  }

  /** Reading back the decimal notation of `n` gives `n`. */
  lemma {:induction false} ParseNumberToString(n: nat)
    ensures ParseDecimal(NumberToString(n)) == n
  {
    var s := NumberToString(n);
    if n >= 10 {
      ParseNumberToString(n / 10);
      assert s[..|s| - 1] == NumberToString(n / 10);
    }
  }

  // ---------------------------------------------------------------------------
  // Array.prototype.join(',') on numbers, and splitting on ','
  // ---------------------------------------------------------------------------

  /** `codes.join(',')`: the decimal notations of `codes`, separated by commas. */
  function JoinNumbers(codes: seq<nat>): string {
    if codes == [] then ""
    else if |codes| == 1 then NumberToString(codes[0])
    else NumberToString(codes[0]) + "," + JoinNumbers(codes[1..])
  }

  /** `s.split(',')`: the pieces of `s` between commas, at least one. */
  function Split(s: string): (pieces: seq<string>)
    ensures |pieces| >= 1
  {
    if s == [] then [""]
    else if s[0] == ',' then [""] + Split(s[1..])
    else
      var rest := Split(s[1..]);
      [[s[0]] + rest[0]] + rest[1..]
  }

  lemma {:induction false} SplitNoComma(a: string)
    requires ',' !in a
    ensures Split(a) == [a]
  {
    if a != [] {
      SplitNoComma(a[1..]);
      assert [a[0]] + a[1..] == a;
    }
  }

  lemma {:induction false} SplitAfterPiece(a: string, b: string)
    requires ',' !in a
    ensures Split(a + "," + b) == [a] + Split(b)
  {
    if a == [] {
      assert a + "," + b == [','] + b;
      assert ([','] + b)[1..] == b;
    } else {
      SplitAfterPiece(a[1..], b);
      assert (a + "," + b)[1..] == a[1..] + "," + b;
      assert [a[0]] + a[1..] == a;
    }
  }

  /** The numbers a comma-separated list of decimal numbers stands for; "" stands for none. */
  function ParseNumberList(s: string): seq<nat> {
    if s == "" then []
    else
      var pieces := Split(s);
      seq(|pieces|, i requires 0 <= i < |pieces| =>
        if forall k :: 0 <= k < |pieces[i]| ==> IsDigit(pieces[i][k]) then ParseDecimal(pieces[i]) else 0)
  }

  /** Joining numbers with commas loses nothing: the list reads back exactly. */
  lemma {:induction false} ParseJoinNumbers(codes: seq<nat>)
    ensures ParseNumberList(JoinNumbers(codes)) == codes
  {
    if codes != [] {
      SplitJoinNumbers(codes);
      var pieces := Split(JoinNumbers(codes));
      var parsed := ParseNumberList(JoinNumbers(codes));
      assert |parsed| == |codes|;
      forall i | 0 <= i < |codes| ensures parsed[i] == codes[i] {
        assert pieces[i] == NumberToString(codes[i]);
        ParseNumberToString(codes[i]);
      }
    }
  }

  lemma {:induction false} SplitJoinNumbers(codes: seq<nat>)
    requires codes != []
    ensures JoinNumbers(codes) != ""
    ensures Split(JoinNumbers(codes)) == seq(|codes|, i requires 0 <= i < |codes| => NumberToString(codes[i]))
  {
    var head := NumberToString(codes[0]);
    assert ',' !in head by {
      forall i | 0 <= i < |head| ensures head[i] != ',' { assert IsDigit(head[i]); }
    }
    if |codes| == 1 {
      SplitNoComma(head);
    } else {
      SplitJoinNumbers(codes[1..]);
      SplitAfterPiece(head, JoinNumbers(codes[1..]));
    }
    var pieces := Split(JoinNumbers(codes));
    forall i | 0 <= i < |codes| ensures pieces[i] == NumberToString(codes[i]) && ParseDecimal(pieces[i]) == codes[i] {
      ParseNumberToString(codes[i]);
    }
  }
}
