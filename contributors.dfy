/**
 * Counting the repositories a user has contributed to: a repository counts
 * when some entry of its contributor list has a login equal to the user name
 * ignoring letter case. The contributor lists are the results of the remote
 * calls, taken as input; an entry whose login is missing reads as "".
 */
module Contributors {
  import opened Wrappers

  predicate IsUpper(ch: char)
  {
    'A' <= ch <= 'Z'
  }

  function LowerChar(ch: char): char
  {
    if IsUpper(ch) then (ch as int + 32) as char else ch
  }

  /** `str.lower()`, on the ASCII letters. */
  function Lower(s: string): string
  {
    seq(|s|, i requires 0 <= i < |s| => LowerChar(s[i]))
  }

  /** Independent reading of "equal ignoring case": position by position the
      characters are equal, or one is an upper-case letter and the other its
      lower-case partner. */
  predicate EqualIgnoringCase(a: string, b: string)
  {
    |a| == |b| &&
    forall i :: 0 <= i < |a| ==>
      a[i] == b[i] || (IsUpper(a[i]) && b[i] as int == a[i] as int + 32)
                   || (IsUpper(b[i]) && a[i] as int == b[i] as int + 32)
  }

  /** Comparing lower-cased strings is exactly comparing ignoring case. */
  lemma LowerEqualIff(a: string, b: string)
    ensures Lower(a) == Lower(b) <==> EqualIgnoringCase(a, b)
  {
    if Lower(a) == Lower(b) {
      forall i | 0 <= i < |a|
        ensures a[i] == b[i] || (IsUpper(a[i]) && b[i] as int == a[i] as int + 32)
                             || (IsUpper(b[i]) && a[i] as int == b[i] as int + 32)
      {
        assert Lower(a)[i] == Lower(b)[i];
      }
    }
    if EqualIgnoringCase(a, b) {
      assert forall i :: 0 <= i < |a| ==> Lower(a)[i] == Lower(b)[i];
    }
  }

  /** Lower-casing leaves no upper-case letter and is idempotent. */
  lemma LowerIdempotent(s: string)
    ensures forall i :: 0 <= i < |Lower(s)| ==> !IsUpper(Lower(s)[i])
    ensures Lower(Lower(s)) == Lower(s)
  {
  }

  /** `c.get("login", "")`. */
  function Login(c: Option<string>): string
  {
    c.GetOr("")
  }

  /** The `any(...)` test for one repository's contributor list. */
  predicate Contributed(contributors: seq<Option<string>>, username: string)
  {
    exists c :: c in contributors && Lower(Login(c)) == Lower(username)
  }

  /** How many repositories' lists contain the user. */
  function ContributedCount(lists: seq<seq<Option<string>>>, username: string): nat
  {
    if lists == [] then 0
    else
      var init := lists[..|lists| - 1];
      ContributedCount(init, username) + (if Contributed(lists[|lists| - 1], username) then 1 else 0)
  }

  /** `count_contributed_repos`, given each repository's contributor list. */
  method CountContributedRepos(lists: seq<seq<Option<string>>>, username: string) returns (count: nat)
    ensures count == ContributedCount(lists, username)
    ensures count <= |lists|
  {
    count := 0;
    for r := 0 to |lists|
      invariant count == ContributedCount(lists[..r], username)
      invariant count <= r
    {
      assert lists[..r + 1][..r] == lists[..r];
      if Contributed(lists[r], username) {
        count := count + 1;
      }
    }
    assert lists[..|lists|] == lists;
  }

  // ---------------------------------------------------------------------------
  // Properties

  /** The count is the number of repositories whose list contains the user:
      it reaches the number of repositories exactly when every list does, and
      is zero exactly when none does. */
  lemma {:induction false} CountBounds(lists: seq<seq<Option<string>>>, username: string)
    ensures ContributedCount(lists, username) <= |lists|
    ensures ContributedCount(lists, username) == |lists| <==>
      forall i :: 0 <= i < |lists| ==> Contributed(lists[i], username)
    ensures ContributedCount(lists, username) == 0 <==>
      forall i :: 0 <= i < |lists| ==> !Contributed(lists[i], username)
  {
    if lists != [] {
      var init := lists[..|lists| - 1];
      CountBounds(init, username);
      assert forall i :: 0 <= i < |init| ==> init[i] == lists[i];
    }
  }

  /** Two user names equal ignoring case give the same count. */
  lemma {:induction false} CountIgnoresCase(lists: seq<seq<Option<string>>>, u: string, u': string)
    requires EqualIgnoringCase(u, u')
    ensures ContributedCount(lists, u) == ContributedCount(lists, u')
  {
    LowerEqualIff(u, u');
    if lists != [] {
      CountIgnoresCase(lists[..|lists| - 1], u, u');
    }
  }

  /** A list holding one contributor counts exactly when that contributor's
      login equals the user name ignoring case. */
  lemma SingleContributor(login: string, username: string)
    ensures Contributed([Some(login)], username) <==> EqualIgnoringCase(login, username)
  {
    LowerEqualIff(login, username);
    assert Login(Some(login)) == login;
    if EqualIgnoringCase(login, username) {
      assert Some(login) in [Some(login)];
    }
  }

  /** A contributor entry without a login matches only the empty user name. */
  lemma MissingLogin(username: string)
    ensures Contributed([None], username) <==> username == ""
  {
    assert Login(None) == "";
    assert Lower("") == "";
    var none: Option<string> := None;
    if username == "" {
      assert none in [none];
    } else {
      assert |Lower(username)| > 0;
    }
  }
}
