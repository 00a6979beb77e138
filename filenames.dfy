/**
 * File-name sanitising and the unique directory-name probe of FS
 * (RemoveInvalidFilenameChars, DirNameFromString).
 */
module FileNames {
  import opened Wrappers
  import Paths

  /** The characters a file name may not contain: " \ / ? < > : * | ! */
  const BadFilenameChars: string := "\"\\/?<>:*|!"

  predicate IsBadFilenameChar(c: char)
  {
    c in BadFilenameChars
  }

  /** What the sanitiser makes of one character. */
  function SanitizedChar(c: char, replaceWith: char): char
  {
    if IsBadFilenameChar(c) then replaceWith else c
  }

  /** Reference definition of the sanitiser: the string rebuilt one character at a time. */
  function Sanitized(s: string, replaceWith: char): (r: string)
    ensures |r| == |s|
  {
    if s == [] then [] else [SanitizedChar(s[0], replaceWith)] + Sanitized(s[1..], replaceWith)
  }

  /** Every position of the sanitised string is the sanitised character of the input. */
  lemma {:induction false} SanitizedAt(s: string, replaceWith: char, i: int)
    requires 0 <= i < |s|
    ensures Sanitized(s, replaceWith)[i] == SanitizedChar(s[i], replaceWith)
  {
    if i > 0 {
      SanitizedAt(s[1..], replaceWith, i - 1);
    }
  }

  /** A string that agrees with the sanitiser position by position is the sanitised string. */
  lemma SanitizedByPositions(s: string, replaceWith: char, r: string)
    requires |r| == |s|
    requires forall i :: 0 <= i < |s| ==> r[i] == SanitizedChar(s[i], replaceWith)
    ensures r == Sanitized(s, replaceWith)
  {
    forall i | 0 <= i < |s|
      ensures r[i] == Sanitized(s, replaceWith)[i]
    {
      SanitizedAt(s, replaceWith, i);
    }
  }

  /**
   * RemoveInvalidFilenameChars: the string is taken by value and its bad
   * characters are overwritten one index at a time.
   */
  method RemoveInvalidFilenameChars(s: string, replaceWith: char) returns (r: string)
    ensures |r| == |s|
    ensures forall i :: 0 <= i < |s| ==> r[i] == if IsBadFilenameChar(s[i]) then replaceWith else s[i]
    ensures r == Sanitized(s, replaceWith)
  {
    r := s;
    var i := 0;
    while i < |r|
      invariant |r| == |s|
      invariant 0 <= i <= |r|
      invariant forall j :: 0 <= j < i ==> r[j] == SanitizedChar(s[j], replaceWith)
      invariant forall j :: i <= j < |r| ==> r[j] == s[j]
    {
      if IsBadFilenameChar(r[i]) {
        r := r[i := replaceWith];
      }
      i := i + 1;
    }
    SanitizedByPositions(s, replaceWith, r);
  }

  /** With a replacement that is itself allowed, no bad character survives. */
  lemma SanitizedIsClean(s: string, replaceWith: char)
    requires !IsBadFilenameChar(replaceWith)
    ensures forall i :: 0 <= i < |s| ==> !IsBadFilenameChar(Sanitized(s, replaceWith)[i])
  {
    forall i | 0 <= i < |s|
      ensures !IsBadFilenameChar(Sanitized(s, replaceWith)[i])
    {
      SanitizedAt(s, replaceWith, i);
    }
  }

  /** Sanitising a second time with the same allowed replacement changes nothing. */
  lemma SanitizedIdempotent(s: string, replaceWith: char)
    requires !IsBadFilenameChar(replaceWith)
    ensures Sanitized(Sanitized(s, replaceWith), replaceWith) == Sanitized(s, replaceWith)
  {
    var once := Sanitized(s, replaceWith);
    SanitizedIsClean(s, replaceWith);
    forall i | 0 <= i < |once|
      ensures Sanitized(once, replaceWith)[i] == once[i]
    {
      SanitizedAt(once, replaceWith, i);
    }
  }

  // ---------------------------------------------------------------------
  // Decimal numbers (QString::number on a non-negative int)

  function DigitChar(d: nat): (c: char)
    requires d < 10
    ensures '0' <= c <= '9'
  {
    ('0' as int + d) as char
  }

  /** The decimal representation without leading zeros. */
  function NatToString(n: nat): (r: string)
    ensures 1 <= |r|
    ensures forall i :: 0 <= i < |r| ==> '0' <= r[i] <= '9'
  {
    if n < 10 then [DigitChar(n)] else NatToString(n / 10) + [DigitChar(n % 10)]
  }

  /** Reading a string of decimal digits back as a number. */
  function StringToNat(s: string): nat
    requires forall i :: 0 <= i < |s| ==> '0' <= s[i] <= '9'
  {
    if s == [] then 0 else StringToNat(s[..|s| - 1]) * 10 + (s[|s| - 1] as int - '0' as int)
  }

  lemma {:induction false} NatToStringRoundTrip(n: nat)
    ensures StringToNat(NatToString(n)) == n
  {
    if n >= 10 {
      var s := NatToString(n);
      assert s[..|s| - 1] == NatToString(n / 10);
      NatToStringRoundTrip(n / 10);
    }
  }

  // ---------------------------------------------------------------------
  // DirNameFromString

  /** Counter values above this make the probe give up. */
  const ProbeLimit: nat := 9000

  /** The name tried for counter value n: the base, then base1, base2, ... */
  function Candidate(base: string, n: nat): string
  {
    if n == 0 then base else base + NatToString(n)
  }

  /** Different counter values give different names, so the probe never asks twice. */
  lemma CandidatesDistinct(base: string, m: nat, n: nat)
    requires m != n
    ensures Candidate(base, m) != Candidate(base, n)
  {
    if m != 0 && n != 0 && Candidate(base, m) == Candidate(base, n) {
      var sm, sn := NatToString(m), NatToString(n);
      assert |sm| == |sn|;
      assert sm == Candidate(base, m)[|base|..];
      assert sn == Candidate(base, n)[|base|..];
      NatToStringRoundTrip(m);
      NatToStringRoundTrip(n);
      assert false;
    }
  }

  /** Is the candidate for counter value n already present under inDir? */
  predicate Taken(base: string, inDir: string, clean: Paths.Cleaner, pathExists: string -> bool, n: nat)
  {
    pathExists(Paths.PathCombine(clean, inDir, Candidate(base, n)))
  }

  /** The first counter value from n on, up to ProbeLimit, whose candidate is free. */
  function FirstFree(base: string, inDir: string, clean: Paths.Cleaner, pathExists: string -> bool, n: nat): (r: Option<nat>)
    ensures r.Some? ==>
              && n <= r.value <= ProbeLimit
              && !Taken(base, inDir, clean, pathExists, r.value)
              && forall j :: n <= j < r.value ==> Taken(base, inDir, clean, pathExists, j)
    ensures r.None? ==> forall j :: n <= j <= ProbeLimit ==> Taken(base, inDir, clean, pathExists, j)
    decreases ProbeLimit + 1 - n
  {
    if n > ProbeLimit then None
    else if !Taken(base, inDir, clean, pathExists, n) then Some(n)
    else FirstFree(base, inDir, clean, pathExists, n + 1)
  }

  /** What DirNameFromString returns: the first free candidate, or "" once the counter passes the limit. */
  function DirName(s: string, inDir: string, clean: Paths.Cleaner, pathExists: string -> bool): string
  {
    var base := Sanitized(s, '-');
    match FirstFree(base, inDir, clean, pathExists, 0)
    case Some(k) => Candidate(base, k)
    case None => ""
  }

  /**
   * DirNameFromString: sanitise with '-', then try base, base1, ..., base9000
   * against the existence test. `probes` counts the existence checks made.
   */
  method DirNameFromString(s: string, inDir: string, clean: Paths.Cleaner, pathExists: string -> bool)
    returns (r: string, ghost probes: nat)
    ensures r == DirName(s, inDir, clean, pathExists)
    ensures probes <= ProbeLimit + 1
    ensures r != [] ==> probes >= 1 && r == Candidate(Sanitized(s, '-'), probes - 1)
  {
    var baseName := RemoveInvalidFilenameChars(s, '-');
    var num: nat := 0;
    var dirName := "";
    probes := 0;
    while true
      invariant num <= ProbeLimit + 1
      invariant probes == num
      invariant FirstFree(baseName, inDir, clean, pathExists, 0) == FirstFree(baseName, inDir, clean, pathExists, num)
      decreases ProbeLimit + 1 - num
    {
      if num == 0 {
        dirName := baseName;
      } else {
        dirName := baseName + NatToString(num);
      }
      if num > ProbeLimit {
        return "", probes;
      }
      num := num + 1;
      probes := probes + 1;
      if !pathExists(Paths.PathCombine(clean, inDir, dirName)) {
        break;
      }
    }
    r := dirName;
  }

  /** The answer is the first free candidate whenever one exists within the limit. */
  lemma DirNameIsFirstFree(s: string, inDir: string, clean: Paths.Cleaner, pathExists: string -> bool, k: nat)
    requires k <= ProbeLimit
    requires !Taken(Sanitized(s, '-'), inDir, clean, pathExists, k)
    requires forall j :: 0 <= j < k ==> Taken(Sanitized(s, '-'), inDir, clean, pathExists, j)
    ensures DirName(s, inDir, clean, pathExists) == Candidate(Sanitized(s, '-'), k)
    ensures !pathExists(Paths.PathCombine(clean, inDir, DirName(s, inDir, clean, pathExists)))
  {
  }

  /** When all 9001 candidates are taken the answer is the empty string. */
  lemma DirNameGivesUp(s: string, inDir: string, clean: Paths.Cleaner, pathExists: string -> bool)
    requires forall j :: 0 <= j <= ProbeLimit ==> Taken(Sanitized(s, '-'), inDir, clean, pathExists, j)
    ensures DirName(s, inDir, clean, pathExists) == ""
  {
  }

  /** A non-empty answer is one of the candidates and is free under inDir. */
  lemma DirNameIsFreeCandidate(s: string, inDir: string, clean: Paths.Cleaner, pathExists: string -> bool)
    ensures var r := DirName(s, inDir, clean, pathExists);
      r != [] ==> exists k :: 0 <= k <= ProbeLimit && r == Candidate(Sanitized(s, '-'), k)
                                && !Taken(Sanitized(s, '-'), inDir, clean, pathExists, k)
  {
  }

  /** The answer is itself a valid file name: it holds no bad character. */
  lemma DirNameIsClean(s: string, inDir: string, clean: Paths.Cleaner, pathExists: string -> bool)
    ensures var r := DirName(s, inDir, clean, pathExists);
      forall i :: 0 <= i < |r| ==> !IsBadFilenameChar(r[i])
  {
    var base := Sanitized(s, '-');
    SanitizedIsClean(s, '-');
    var f := FirstFree(base, inDir, clean, pathExists, 0);
    if f.Some? && f.value != 0 {
      var digits := NatToString(f.value);
      var r := base + digits;
      assert DirName(s, inDir, clean, pathExists) == r;
      forall i | 0 <= i < |r|
        ensures !IsBadFilenameChar(r[i])
      {
        if i < |base| {
          assert r[i] == base[i];
        } else {
          assert r[i] == digits[i - |base|];
        }
      }
    }
  }

}
