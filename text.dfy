/** The string setters Mongoose schemas declare (`trim`, `lowercase`,
    `uppercase`), on the ASCII range. */
module Text {
  import opened Common

  /** The ASCII characters `String.prototype.trim` removes. */
  predicate IsSpace(c: char)
  {
    c == ' ' || '\t' <= c <= '\r'
  }

  predicate IsLowerLetter(c: char)
  {
    'a' <= c <= 'z'
  }

  predicate IsUpperLetter(c: char)
  {
    'A' <= c <= 'Z'
  }

  function UpperChar(c: char): char
  {
    if IsLowerLetter(c) then (c as int - 32) as char else c
  }

  function LowerChar(c: char): char
  {
    if IsUpperLetter(c) then (c as int + 32) as char else c
  }

  /** `uppercase: true` */
  function Upper(s: string): (r: string)
    ensures |r| == |s|
    ensures forall k :: 0 <= k < |r| ==> !IsLowerLetter(r[k])
  {
    seq(|s|, k requires 0 <= k < |s| => UpperChar(s[k]))
  }

  /** `lowercase: true` */
  function Lower(s: string): (r: string)
    ensures |r| == |s|
    ensures forall k :: 0 <= k < |r| ==> !IsUpperLetter(r[k])
  {
    seq(|s|, k requires 0 <= k < |s| => LowerChar(s[k]))
  }

  function TrimStart(s: string): string
  {
    if s != [] && IsSpace(s[0]) then TrimStart(s[1..]) else s
  }

  function TrimEnd(s: string): string
  {
    if s != [] && IsSpace(s[|s| - 1]) then TrimEnd(s[..|s| - 1]) else s
  }

  /** `trim: true`, the setter Mongoose applies to a trimmed path. */
  function Trim(s: string): string
  {
    TrimEnd(TrimStart(s))
  }

  /** `r` is `s` with the white space at both of its ends removed: a slice of
      `s` outside which there is only white space, and which neither starts
      nor ends with white space. */
  predicate IsTrimOf(r: string, s: string)
  {
    && (r == [] || (!IsSpace(r[0]) && !IsSpace(r[|r| - 1])))
    && exists i, j :: 0 <= i <= j <= |s| && r == s[i..j] && SpaceOutside(s, i, j)
  }

  predicate SpaceOutside(s: string, i: int, j: int)
    requires 0 <= i <= j <= |s|
  {
    && (forall k :: 0 <= k < i ==> IsSpace(s[k]))
    && (forall k :: j <= k < |s| ==> IsSpace(s[k]))
  }

  lemma {:induction false} TrimStartFacts(s: string)
    ensures var r := TrimStart(s);
      && |r| <= |s| && r == s[|s| - |r|..]
      && (r == [] || !IsSpace(r[0]))
      && (forall k :: 0 <= k < |s| - |r| ==> IsSpace(s[k]))
  {
    if s != [] && IsSpace(s[0]) {
      TrimStartFacts(s[1..]);
      var r := TrimStart(s);
      forall k | 1 <= k < |s| - |r| ensures IsSpace(s[k]) {
        assert s[k] == s[1..][k - 1];
      }
    }
  }

  lemma {:induction false} TrimEndFacts(s: string)
    ensures var r := TrimEnd(s);
      && |r| <= |s| && r == s[..|r|]
      && (r == [] || !IsSpace(r[|r| - 1]))
      && (forall k :: |r| <= k < |s| ==> IsSpace(s[k]))
  {
    if s != [] && IsSpace(s[|s| - 1]) {
      TrimEndFacts(s[..|s| - 1]);
      var r := TrimEnd(s);
      forall k | |r| <= k < |s| - 1 ensures IsSpace(s[k]) {
        assert s[k] == s[..|s| - 1][k];
      }
    }
  }

  /** The trimmed string is the input with exactly its surrounding white space
      removed; so every one of its characters is a character of the input,
      and an input that already has no white space at either end is returned
      unchanged. */
  lemma TrimFacts(s: string)
    ensures var r := Trim(s);
      && IsTrimOf(r, s)
      && (forall k :: 0 <= k < |r| ==> r[k] in s)
      && (s == [] || (!IsSpace(s[0]) && !IsSpace(s[|s| - 1])) ==> r == s)
  {
    var front := TrimStart(s);
    var r := TrimEnd(front);
    TrimStartFacts(s);
    TrimEndFacts(front);
    var i := |s| - |front|;
    var j := i + |r|;
    forall k | 0 <= k < |r| ensures r[k] == s[i + k] {
      assert r[k] == front[k] == s[i + k];
    }
    assert r == s[i..j];
    forall k | j <= k < |s| ensures IsSpace(s[k]) {
      assert s[k] == front[k - i];
    }
    assert SpaceOutside(s, i, j);
    forall k | 0 <= k < |r| ensures r[k] in s {
      assert r[k] == s[i + k];
    }
    if s == [] || (!IsSpace(s[0]) && !IsSpace(s[|s| - 1])) {
      assert front == s;
    }
  }

  /** `trim` on an update path that may be absent. */
  function TrimOpt(s: Option<string>): Option<string>
  {
    match s
    case Some(v) => Some(Trim(v))
    case None => None
  }

  lemma TrimIdempotent(s: string)
    ensures Trim(Trim(s)) == Trim(s)
  {
    TrimFacts(s);
    TrimFacts(Trim(s));
  }

  /** Upper-casing a string that has no lower-case letters changes nothing. */
  lemma UpperOfUpper(s: string)
    requires forall k :: 0 <= k < |s| ==> !IsLowerLetter(s[k])
    ensures Upper(s) == s
  {
  }

  lemma LowerOfLower(s: string)
    requires forall k :: 0 <= k < |s| ==> !IsUpperLetter(s[k])
    ensures Lower(s) == s
  {
  }
}
