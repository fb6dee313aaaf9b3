/** Trimming and lower case, as the standard library has them. */
module Texts {
  function LowerChar(c: char): char {
    if 'A' <= c <= 'Z' then c - 'A' + 'a' else c
  }

  function Lower(s: string): string {
    if s == "" then "" else [LowerChar(s[0])] + Lower(s[1..])
  }

  /** Unicode white space, as `str::trim` has it. */
  predicate White(c: char) {
    var n := c as int;
    9 <= n <= 13 || n == 0x20 || n == 0x85 || n == 0xA0 || n == 0x1680 || 0x2000 <= n <= 0x200A ||
    n == 0x2028 || n == 0x2029 || n == 0x202F || n == 0x205F || n == 0x3000
  }

  function TrimStart(s: string): string {
    if s != "" && White(s[0]) then TrimStart(s[1..]) else s
  }

  function TrimEnd(s: string): string {
    if s != "" && White(s[|s| - 1]) then TrimEnd(s[..|s| - 1]) else s
  }

  function Trim(s: string): string {
    TrimEnd(TrimStart(s))
  }

  /** Lower case goes character by character, and changes A to Z only. */
  lemma {:induction false} LowerEach(s: string, i: nat)
    requires i < |s|
    ensures |Lower(s)| == |s|
    ensures Lower(s)[i] == if 'A' <= s[i] <= 'Z' then (s[i] as int + 32) as char else s[i]
  {
    if |s| > 1 {
      LowerEach(s[1..], if i > 0 then i - 1 else 0);
    }
  }

  predicate AllWhite(s: string) {
    forall c :: c in s ==> White(c)
  }

  lemma {:induction false} TrimStartCuts(s: string) returns (a: string)
    ensures AllWhite(a) && s == a + TrimStart(s) && (TrimStart(s) != "" ==> !White(TrimStart(s)[0]))
  {
    if s != "" && White(s[0]) {
      var b := TrimStartCuts(s[1..]);
      a := [s[0]] + b;
      assert s == [s[0]] + s[1..];
    } else {
      a := "";
    }
  }

  lemma {:induction false} TrimEndCuts(s: string) returns (b: string)
    ensures AllWhite(b) && s == TrimEnd(s) + b && (TrimEnd(s) != "" ==> !White(TrimEnd(s)[|TrimEnd(s)| - 1]))
  {
    if s != "" && White(s[|s| - 1]) {
      var c := TrimEndCuts(s[..|s| - 1]);
      b := c + [s[|s| - 1]];
      assert s == s[..|s| - 1] + [s[|s| - 1]];
    } else {
      b := "";
    }
  }

  /** Trimming takes white space from both ends, and all of it. */
  lemma TrimCuts(s: string) returns (a: string, b: string)
    ensures AllWhite(a) && AllWhite(b) && s == a + Trim(s) + b
    ensures Trim(s) != "" ==> !White(Trim(s)[0]) && !White(Trim(s)[|Trim(s)| - 1])
  {
    a := TrimStartCuts(s);
    b := TrimEndCuts(TrimStart(s));
    assert Trim(s) != "" ==> Trim(s)[0] == TrimStart(s)[0];
    assert a + (Trim(s) + b) == a + Trim(s) + b;
  }
}
