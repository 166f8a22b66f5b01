/** The access gate of the Albright student calendar: a user asks for access
    and is approved exactly when the email ends with the college's domain. */
module Access {

  /** The literal domain suffix the gate looks for (case-sensitive). */
  const AlbrightSuffix: string := "@albright.edu"

  /** Python's `str.endswith`: the last |suffix| characters of `s` are `suffix`.
      The empty suffix is a suffix of every string. */
  predicate EndsWith(s: string, suffix: string)
  {
    |suffix| <= |s| && s[|s| - |suffix|..] == suffix
  }

  /** A reference definition of the suffix test that compares the two strings
      character by character from their ends. */
  predicate EndsWithFromEnd(s: string, suffix: string)
    decreases |suffix|
  {
    if suffix == [] then true
    else if s == [] then false
    else s[|s| - 1] == suffix[|suffix| - 1] && EndsWithFromEnd(s[..|s| - 1], suffix[..|suffix| - 1])
  }

  /** The slice comparison and the character-by-character comparison agree. */
  lemma {:induction false} EndsWithAgrees(s: string, suffix: string)
    ensures EndsWith(s, suffix) <==> EndsWithFromEnd(s, suffix)
    decreases |suffix|
  {
    if suffix != [] && s != [] {
      var s', suffix' := s[..|s| - 1], suffix[..|suffix| - 1];
      EndsWithAgrees(s', suffix');
      if EndsWith(s, suffix) {
        assert s'[|s'| - |suffix'|..] == s[|s| - |suffix|..][..|suffix'|];
      }
      if EndsWithFromEnd(s, suffix) {
        assert s[|s| - |suffix|..] == s'[|s'| - |suffix'|..] + [s[|s| - 1]];
        assert suffix == suffix' + [suffix[|suffix| - 1]];
      }
    }
  }

  /** The gate looks only at the tail: whatever precedes an accepted address
      (a second `@`, an empty local part) does not change the decision. */
  lemma EndsWithPrepend(p: string, s: string, suffix: string)
    ensures EndsWith(p + s, suffix) <== EndsWith(s, suffix)
  {
  }

  /** The approval rule of `User.request_access`. */
  predicate IsAlbrightEmail(email: string)
  {
    EndsWith(email, AlbrightSuffix)
  }

  /** The decisions the gate makes on a few addresses: the domain must match
      exactly, including case, and must be at the very end. */
  lemma GateExamples()
    ensures IsAlbrightEmail("sam@albright.edu")
    ensures IsAlbrightEmail("@albright.edu")
    ensures !IsAlbrightEmail("pat@gmail.com")
    ensures !IsAlbrightEmail("sam@Albright.edu")
    ensures !IsAlbrightEmail("sam@albright.edu.org")
    ensures !IsAlbrightEmail("albright.edu")
  {
  }

  /** A person asking for access. `name` and `email` are set once at creation;
      `approved` starts false and only `RequestAccess` sets it, only to true. */
  class User {
    const name: string
    const email: string
    var approved: bool

    /** Approval is only ever granted to an Albright address. */
    ghost predicate Valid()
      reads this
    {
      approved ==> IsAlbrightEmail(email)
    }

    constructor (name: string, email: string)
      ensures this.name == name && this.email == email
      ensures !approved
      ensures Valid()
    {
      this.name := name;
      this.email := email;
      approved := false;
    }

    /** Approves the user when the email ends with the Albright suffix and
        reports whether it did; a refusal leaves the flag as it was. */
    method RequestAccess() returns (granted: bool)
      requires Valid()
      modifies this`approved
      ensures Valid()
      ensures granted == IsAlbrightEmail(email)
      ensures granted ==> approved
      ensures !granted ==> approved == old(approved)
    {
      if EndsWith(email, AlbrightSuffix) {
        approved := true;
        return true;
      }
      return false;
    }
  }
}
