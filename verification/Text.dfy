/** The few string operations the proof rules rely on, over ASCII. */
module Text {
  function LowerChar(c: char): char {
    if 'A' <= c <= 'Z' then c + 32 as char else c
  }

  function Lower(s: string): (r: string)
    ensures |r| == |s|
  {
    seq(|s|, i requires 0 <= i < |s| => LowerChar(s[i]))
  }

  predicate IsLower(s: string) {
    Lower(s) == s
  }

  predicate EqualFold(s: string, t: string) {
    Lower(s) == Lower(t)
  }

  predicate IsSpace(c: char) {
    c in {' ', '\t', '\n', '\r', 0x0b as char, 0x0c as char}
  }

  function TrimLeft(s: string): string {
    if s != "" && IsSpace(s[0]) then TrimLeft(s[1..]) else s
  }

  function TrimRight(s: string): string {
    if s != "" && IsSpace(s[|s| - 1]) then TrimRight(s[..|s| - 1]) else s
  }

  function Trim(s: string): string {
    TrimRight(TrimLeft(s))
  }

  /** Lexicographic order, as the program compares transaction ids. */
  predicate Less(s: string, t: string) {
    if t == "" then false else if s == "" then true
    else if s[0] != t[0] then s[0] < t[0] else Less(s[1..], t[1..])
  }

  lemma {:induction false} LessTotal(s: string, t: string)
    ensures s == t || Less(s, t) || Less(t, s)
  {
    if s != "" && t != "" && s[0] == t[0] {
      LessTotal(s[1..], t[1..]);
      assert s == [s[0]] + s[1..] && t == [t[0]] + t[1..];
    }
  }

  lemma {:induction false} LessTransitive(s: string, t: string, u: string)
    requires Less(s, t) && Less(t, u)
    ensures Less(s, u)
  {
    if s != "" && s[0] == t[0] == u[0] {
      LessTransitive(s[1..], t[1..], u[1..]);
    }
  }

  lemma {:induction false} LessIrreflexive(s: string)
    ensures !Less(s, s)
  {
    if s != "" {
      LessIrreflexive(s[1..]);
    }
  }

  lemma SameHead(s: string, t: string, k: nat)
    requires k <= |s| && k <= |t| && s[..k] == t[..k]
    ensures k > 0 ==> s[0] == t[0]
  {
    if k > 0 {
      assert s[..k][0] == s[0] && t[..k][0] == t[0];
    }
  }

  /** A string is less than another exactly when, where they first differ, it has the lesser character or has ended. */
  lemma {:induction false} LessIff(s: string, t: string)
    ensures Less(s, t) <==>
            exists k :: 0 <= k <= |s| && k < |t| && s[..k] == t[..k] && (k == |s| || s[k] < t[k])
    decreases |s|
  {
    if s == "" || t == "" || s[0] != t[0] {
      if Less(s, t) {
        assert s[..0] == t[..0];
      }
      forall k | 0 <= k <= |s| && k < |t| && s[..k] == t[..k] ensures k > 0 ==> s[0] == t[0] {
        SameHead(s, t, k);
      }
    } else {
      var s', t' := s[1..], t[1..];
      LessIff(s', t');
      assert s == [s[0]] + s' && t == [t[0]] + t';
      if k :| 0 <= k <= |s'| && k < |t'| && s'[..k] == t'[..k] && (k == |s'| || s'[k] < t'[k]) {
        assert s[..k + 1] == [s[0]] + s'[..k] && t[..k + 1] == [t[0]] + t'[..k];
      }
      if k :| 0 <= k <= |s| && k < |t| && s[..k] == t[..k] && (k == |s| || s[k] < t[k]) {
        assert k > 0;
        assert s'[..k - 1] == s[..k][1..] && t'[..k - 1] == t[..k][1..];
      }
    }
  }

  predicate Blank(c: char) {
    c as int in {9, 10, 11, 12, 13, 32}
  }

  /** What is trimmed is blank, and what is left neither starts nor ends blank. */
  lemma TrimIs(s: string) returns (left: string, right: string)
    ensures s == left + Trim(s) + right
    ensures forall i :: 0 <= i < |left| ==> Blank(left[i])
    ensures forall i :: 0 <= i < |right| ==> Blank(right[i])
    ensures Trim(s) != "" ==> !Blank(Trim(s)[0]) && !Blank(Trim(s)[|Trim(s)| - 1])
  {
    left := TrimLeftIs(s);
    right := TrimRightIs(TrimLeft(s));
  }

  lemma {:induction false} TrimLeftIs(s: string) returns (left: string)
    ensures s == left + TrimLeft(s) && forall i :: 0 <= i < |left| ==> Blank(left[i])
    ensures TrimLeft(s) != "" ==> !Blank(TrimLeft(s)[0])
  {
    if s != "" && IsSpace(s[0]) {
      left := TrimLeftIs(s[1..]);
      left := [s[0]] + left;
    } else {
      left := "";
    }
  }

  lemma {:induction false} TrimRightIs(s: string) returns (right: string)
    ensures s == TrimRight(s) + right && forall i :: 0 <= i < |right| ==> Blank(right[i])
    ensures TrimRight(s) != "" ==> TrimRight(s)[0] == s[0] && !Blank(TrimRight(s)[|TrimRight(s)| - 1])
    decreases |s|
  {
    if s != "" && IsSpace(s[|s| - 1]) {
      right := TrimRightIs(s[..|s| - 1]);
      right := right + [s[|s| - 1]];
    } else {
      right := "";
    }
  }

  lemma TrimTrimmed(s: string)
    requires s == "" || (!IsSpace(s[0]) && !IsSpace(s[|s| - 1]))
    ensures Trim(s) == s
  {
  }

  /** Trimming and lower-casing twice is the same as once. */
  lemma NormalTwice(s: string)
    ensures Lower(Trim(Lower(Trim(s)))) == Lower(Trim(s))
  {
    var left, right := TrimIs(s);
    var lower := Lower(Trim(s));
    TrimTrimmed(lower);
    assert Lower(lower) == lower;
  }

  /** Two texts are equal but for case when they are equal but for the letters A to Z and a to z, 32 apart. */
  lemma FoldIff(s: string, t: string)
    ensures EqualFold(s, t) <==>
            |s| == |t| && forall i :: 0 <= i < |s| ==>
                            || s[i] == t[i]
                            || ('A' <= s[i] <= 'Z' && t[i] as int == s[i] as int + 32)
                            || ('A' <= t[i] <= 'Z' && s[i] as int == t[i] as int + 32)
  {
    if EqualFold(s, t) {
      forall i | 0 <= i < |s|
        ensures LowerChar(s[i]) == LowerChar(t[i])
      {
        assert Lower(s)[i] == Lower(t)[i];
      }
    }
  }
}
