/**
 * The transaction service's guard: the `Authorization` header has every
 * "Bearer " removed from it, as Python's `str.replace(old, "")` does, and
 * what is left is verified as a token.
 *
 * `str.replace` scans left to right; at a position where the pattern
 * starts it drops the whole occurrence and continues after it, otherwise
 * it keeps one character and moves on. So it removes every
 * non-overlapping occurrence, wherever it stands, not just a leading one.
 */
module TransactionDependencies {
  import opened Http
  import opened Security

  const Bearer: string := "Bearer "

  /** An occurrence of "Bearer " starts at position `i` of `s`. */
  predicate MatchAt(s: string, i: nat)
  {
    i + |Bearer| <= |s| && s[i..i + |Bearer|] == Bearer
  }

  /** `s` contains "Bearer " somewhere. */
  ghost predicate Contains(s: string)
  {
    exists i: nat :: MatchAt(s, i)
  }

  /** `s.replace("Bearer ", "")`. It never lengthens its input. */
  function StripBearer(s: string): (r: string)
    ensures |r| <= |s|
    decreases |s|
  {
    if MatchAt(s, 0) then StripBearer(s[|Bearer|..])
    else if s == [] then []
    else [s[0]] + StripBearer(s[1..])
  }

  /** How many occurrences the left-to-right scan finds and removes. */
  function Occurrences(s: string): nat
    decreases |s|
  {
    if MatchAt(s, 0) then 1 + Occurrences(s[|Bearer|..])
    else if s == [] then 0
    else Occurrences(s[1..])
  }

  /** Each removal takes exactly the seven characters of "Bearer " away. */
  lemma {:induction false} StripLength(s: string)
    ensures |StripBearer(s)| == |s| - |Bearer| * Occurrences(s)
    decreases |s|
  {
    if MatchAt(s, 0) {
      StripLength(s[|Bearer|..]);
    } else if s != [] {
      StripLength(s[1..]);
    }
  }

  /** The scan finds an occurrence whenever there is one. */
  lemma {:induction false} ContainsFound(s: string, i: nat)
    requires MatchAt(s, i)
    ensures Occurrences(s) > 0
    decreases i
  {
    if !MatchAt(s, 0) {
      assert i > 0 && s != [];
      ShiftMatch(s, i - 1);
      ContainsFound(s[1..], i - 1);
    }
  }

  /** Conversely, every occurrence the scan counts is a real one. */
  lemma {:induction false} FoundContains(s: string)
    requires Occurrences(s) > 0
    ensures Contains(s)
    decreases |s|
  {
    if !MatchAt(s, 0) {
      assert s != [];
      FoundContains(s[1..]);
      var i: nat :| MatchAt(s[1..], i);
      ShiftMatch(s, i);
      assert MatchAt(s, i + 1);
    }
  }

  /** A header without "Bearer " in it passes through unchanged. */
  lemma {:induction false} NoOccurrenceUnchanged(s: string)
    requires !Contains(s)
    ensures StripBearer(s) == s
    decreases |s|
  {
    assert !MatchAt(s, 0);
    if s != [] {
      forall i: nat
        ensures !MatchAt(s[1..], i)
      {
        ShiftMatch(s, i);
      }
      NoOccurrenceUnchanged(s[1..]);
      assert [s[0]] + s[1..] == s;
    }
  }

  /** Stripping changes the header exactly when it contains "Bearer ". */
  lemma UnchangedIffNoOccurrence(s: string)
    ensures StripBearer(s) == s <==> !Contains(s)
  {
    if Contains(s) {
      var i: nat :| MatchAt(s, i);
      ContainsFound(s, i);
      StripLength(s);
    } else {
      NoOccurrenceUnchanged(s);
    }
  }

  /** Dropping the first character moves every occurrence one place left. */
  lemma ShiftMatch(s: string, i: nat)
    requires s != []
    ensures MatchAt(s[1..], i) <==> MatchAt(s, i + 1)
  {
    if i + 1 + |Bearer| <= |s| {
      assert s[1..][i..i + |Bearer|] == s[i + 1..i + 1 + |Bearer|];
    }
  }

  /** The scan keeps, one by one, the characters before the first occurrence. */
  lemma {:induction false} StripSkip(s: string, k: nat)
    requires k <= |s|
    requires forall i: nat :: i < k ==> !MatchAt(s, i)
    ensures StripBearer(s) == s[..k] + StripBearer(s[k..])
    decreases k
  {
    if k > 0 {
      var rest := s[1..];
      forall i: nat | i < k - 1
        ensures !MatchAt(rest, i)
      {
        ShiftMatch(s, i);
      }
      StripSkip(rest, k - 1);
      calc {
        StripBearer(s);
        { assert !MatchAt(s, 0); }
        [s[0]] + StripBearer(rest);
        [s[0]] + (rest[..k - 1] + StripBearer(rest[k - 1..]));
        { assert rest[k - 1..] == s[k..]; assert [s[0]] + rest[..k - 1] == s[..k]; }
        s[..k] + StripBearer(s[k..]);
      }
    }
  }

  /**
   * Removal is not anchored at the start: the first occurrence, wherever it
   * stands, is cut out and the scan resumes right after it.
   */
  lemma FirstOccurrenceRemoved(s: string, k: nat)
    requires MatchAt(s, k)
    requires forall i: nat :: i < k ==> !MatchAt(s, i)
    ensures StripBearer(s) == s[..k] + StripBearer(s[k + |Bearer|..])
  {
    StripSkip(s, k);
    assert s[k..][..|Bearer|] == s[k..k + |Bearer|];
    assert MatchAt(s[k..], 0);
    assert s[k..][|Bearer|..] == s[k + |Bearer|..];
  }

  /** "Bearer " + t strips to exactly t when t holds no further "Bearer ". */
  lemma PrefixStripped(t: string)
    requires !Contains(t)
    ensures StripBearer(Bearer + t) == t
  {
    var s := Bearer + t;
    assert s[..|Bearer|] == Bearer;
    assert MatchAt(s, 0);
    assert s[|Bearer|..] == t;
    NoOccurrenceUnchanged(t);
  }

  /** An occurrence in the middle of a header is removed as well. */
  lemma MiddleOccurrenceRemoved()
    ensures StripBearer("xBearer y") == "xy"
  {
    var s := "xBearer y";
    assert MatchAt(s, 1);
    assert s[0..7] == "xBearer";
    assert !MatchAt(s, 0);
    FirstOccurrenceRemoved(s, 1);
    assert s[8..] == "y";
    NoOccurrenceUnchanged("y");
  }

  /**
   * One pass is not a fixed point: removing an inner occurrence can join
   * its neighbours into a new one, which the pass does not revisit.
   */
  lemma StripNotIdempotent()
    ensures StripBearer("BearBearer er ") == Bearer
    ensures StripBearer(Bearer) == ""
  {
    var s := "BearBearer er ";
    assert MatchAt(s, 4);
    forall i: nat | i < 4
      ensures !MatchAt(s, i)
    {
      assert s[i + 6] != ' ';
      assert s[i..i + |Bearer|][6] == s[i + 6];
    }
    FirstOccurrenceRemoved(s, 4);
    assert s[..4] == "Bear";
    assert s[11..] == "er ";
    NoOccurrenceUnchanged("er ");
    assert MatchAt(Bearer, 0);
    assert Bearer[|Bearer|..] == "";
  }

  /**
   * `get_current_user`: strip, then verify. The strip step itself never
   * refuses; the only refusal is the verifier's 401, and a success carries
   * the claims of the stripped header.
   */
  function GetCurrentUser(decode: string -> Option<Claims>, authorization: string): (r: Result<Claims>)
    ensures r.Err? <==> decode(StripBearer(authorization)).None?
    ensures r.Err? ==> r.error == InvalidToken
    ensures r.Ok? ==> r.value == decode(StripBearer(authorization)).value
  {
    var token := StripBearer(authorization);
    VerifyJwt(decode, token)
  }

  /** A header sent without the "Bearer " prefix is verified as it is. */
  lemma MissingPrefixTolerated(decode: string -> Option<Claims>, authorization: string)
    requires !Contains(authorization)
    ensures GetCurrentUser(decode, authorization) == VerifyJwt(decode, authorization)
  {
    NoOccurrenceUnchanged(authorization);
  }

  /** A well-formed header "Bearer <token>" verifies exactly <token>. */
  lemma BearerHeaderVerifiesToken(decode: string -> Option<Claims>, token: string)
    requires !Contains(token)
    ensures GetCurrentUser(decode, Bearer + token) == VerifyJwt(decode, token)
  {
    PrefixStripped(token);
  }
}
