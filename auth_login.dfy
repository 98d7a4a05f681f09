/**
 * The sample generated login service: the ordered input validator and the table of failed
 * login attempts with its three operations. The two `re.match` patterns are stated with the
 * semantics of Python regular expressions (`$` also matches just before a final newline,
 * `.` never matches a newline) and proved equal to direct character checks.
 */
module AuthLogin {
  import opened TextOps

  const UsernameMinLength := 3
  const UsernameMaxLength := 50
  const PasswordMinLength := 8
  const PasswordMaxLength := 128
  const MaxAttempts := 5

  const MissingParameters := "缺少必要参数"
  const BadUsernameFormat := "用户名格式不正确"
  const BadUsernameLength := "用户名长度不正确"
  const BadPasswordLength := "密码长度不正确"
  const BadPasswordFormat := "密码格式不正确"

  /** A character of the class `[a-zA-Z0-9_]`. */
  predicate IsWordChar(c: char)
  {
    IsLower(c) || IsUpper(c) || IsDigit(c) || c == '_'
  }

  // Regular-expression semantics

  /** Python's `$` without MULTILINE matches at position `p`: the end, or just before a final newline. */
  ghost predicate EndAnchorAt(s: string, p: int)
  {
    p == |s| || (0 <= p == |s| - 1 && s[p] == '\n')
  }

  /** `re.match(r'^[a-zA-Z0-9_]+$', s)`: one or more class characters from the start, then `$`. */
  ghost predicate UsernamePatternMatches(s: string)
  {
    exists p :: 1 <= p <= |s| && (forall k :: 0 <= k < p ==> IsWordChar(s[k])) && EndAnchorAt(s, p)
  }

  /** The lookahead `(?=.*X)`: a character of class X after a run of non-newline characters from the start. */
  ghost predicate LookaheadFinds(s: string, x: char -> bool)
  {
    exists k :: 0 <= k < |s| && '\n' !in s[..k] && x(s[k])
  }

  /** `re.match(r'^(?=.*[a-z])(?=.*[A-Z])(?=.*\d).*$', s)`. */
  ghost predicate PasswordPatternMatches(s: string)
  {
    && LookaheadFinds(s, IsLower) && LookaheadFinds(s, IsUpper) && LookaheadFinds(s, IsDigit)
    && exists p :: 0 <= p <= |s| && '\n' !in s[..p] && EndAnchorAt(s, p)
  }

  // Direct checks

  /** `s` without its final newline, if it has one. */
  function DropFinalNewline(s: string): (r: string)
    ensures |r| <= |s| && s[..|r|] == r
    ensures |s| > 0 && s[|s| - 1] == '\n' ==> |r| == |s| - 1
    ensures !(|s| > 0 && s[|s| - 1] == '\n') ==> r == s
  {
    if |s| > 0 && s[|s| - 1] == '\n' then s[..|s| - 1] else s
  }

  /** A non-empty run of class characters, optionally followed by one newline. */
  predicate UsernameFormatOk(s: string)
  {
    var b := DropFinalNewline(s);
    |b| >= 1 && forall k :: 0 <= k < |b| ==> IsWordChar(b[k])
  }

  /** One line, optionally followed by a newline, holding a lower-case letter, an upper-case letter and a digit. */
  predicate PasswordFormatOk(s: string)
  {
    var b := DropFinalNewline(s);
    && '\n' !in b
    && (exists k :: 0 <= k < |b| && IsLower(b[k]))
    && (exists k :: 0 <= k < |b| && IsUpper(b[k]))
    && (exists k :: 0 <= k < |b| && IsDigit(b[k]))
  }

  /** The direct username check accepts exactly what the pattern matches. */
  lemma UsernameFormatIsPattern(s: string)
    ensures UsernameFormatOk(s) <==> UsernamePatternMatches(s)
  {
    var b := DropFinalNewline(s);
    if UsernameFormatOk(s) {
      assert forall k :: 0 <= k < |b| ==> s[k] == b[k];
      assert EndAnchorAt(s, |b|);
    }
    if UsernamePatternMatches(s) {
      var p :| 1 <= p <= |s| && (forall k :: 0 <= k < p ==> IsWordChar(s[k])) && EndAnchorAt(s, p);
      if p == |s| {
        assert IsWordChar(s[|s| - 1]);
        assert b == s;
      } else {
        assert |b| == p;
        assert forall k :: 0 <= k < |b| ==> b[k] == s[k];
      }
    }
  }

  /** The lookahead for a non-newline class finds a character exactly when the first line of `s` holds one. */
  lemma LookaheadInBody(s: string, x: char -> bool)
    requires !x('\n')
    requires '\n' !in DropFinalNewline(s)
    ensures LookaheadFinds(s, x) <==> exists k :: 0 <= k < |DropFinalNewline(s)| && x(DropFinalNewline(s)[k])
  {
    var b := DropFinalNewline(s);
    if LookaheadFinds(s, x) {
      var k :| 0 <= k < |s| && '\n' !in s[..k] && x(s[k]);
      assert k < |b| && b[k] == s[k];
    }
    if exists k :: 0 <= k < |b| && x(b[k]) {
      var k :| 0 <= k < |b| && x(b[k]);
      assert s[k] == b[k];
      assert s[..k] == b[..k];
      assert forall j :: 0 <= j < k ==> b[..k][j] == b[j];
    }
  }

  /** `.*$` matches from the start exactly when no newline comes before the final character. */
  lemma LineThenEnd(s: string)
    ensures (exists p :: 0 <= p <= |s| && '\n' !in s[..p] && EndAnchorAt(s, p)) <==> '\n' !in DropFinalNewline(s)
  {
    var b := DropFinalNewline(s);
    if exists p :: 0 <= p <= |s| && '\n' !in s[..p] && EndAnchorAt(s, p) {
      var p :| 0 <= p <= |s| && '\n' !in s[..p] && EndAnchorAt(s, p);
      if p == |s| {
        assert s[..p] == s;
        assert b == s;
      } else {
        assert b == s[..p];
      }
    }
    if '\n' !in b {
      assert s[..|b|] == b;
      assert EndAnchorAt(s, |b|);
    }
  }

  /** The direct password check accepts exactly what the pattern matches. */
  lemma PasswordFormatIsPattern(s: string)
    ensures PasswordFormatOk(s) <==> PasswordPatternMatches(s)
  {
    LineThenEnd(s);
    if '\n' !in DropFinalNewline(s) {
      LookaheadInBody(s, IsLower);
      LookaheadInBody(s, IsUpper);
      LookaheadInBody(s, IsDigit);
    }
  }

  /** The request body of the login route: a string-keyed object with string values. */
  type Request = map<string, string>

  /** Every check of `validate_input` passes. */
  ghost predicate AcceptedInput(data: Request)
  {
    && "username" in data && "password" in data
    && UsernamePatternMatches(data["username"])
    && UsernameMinLength <= |data["username"]| <= UsernameMaxLength
    && PasswordMinLength <= |data["password"]| <= PasswordMaxLength
    && PasswordPatternMatches(data["password"])
  }

  /**
   * `validate_input`: the checks in order, the first failure's message, and `(True, '')`
   * only when every check passes.
   */
  function ValidateInput(data: Request): (r: (bool, string))
    ensures r.0 <==> AcceptedInput(data)
    ensures r.0 ==> r.1 == ""
    ensures !("username" in data && "password" in data) ==> r == (false, MissingParameters)
    ensures ("username" in data && "password" in data && !UsernamePatternMatches(data["username"])) ==>
      r == (false, BadUsernameFormat)
    ensures ("username" in data && "password" in data && UsernamePatternMatches(data["username"])
             && !(UsernameMinLength <= |data["username"]| <= UsernameMaxLength)) ==>
      r == (false, BadUsernameLength)
    ensures ("username" in data && "password" in data && UsernamePatternMatches(data["username"])
             && UsernameMinLength <= |data["username"]| <= UsernameMaxLength
             && !(PasswordMinLength <= |data["password"]| <= PasswordMaxLength)) ==>
      r == (false, BadPasswordLength)
    ensures ("username" in data && "password" in data && UsernamePatternMatches(data["username"])
             && UsernameMinLength <= |data["username"]| <= UsernameMaxLength
             && PasswordMinLength <= |data["password"]| <= PasswordMaxLength
             && !PasswordPatternMatches(data["password"])) ==>
      r == (false, BadPasswordFormat)
  {
    if "username" !in data || "password" !in data then (false, MissingParameters)
    else
      var username := data["username"];
      var password := data["password"];
      UsernameFormatIsPattern(username);
      PasswordFormatIsPattern(password);
      if !UsernameFormatOk(username) then (false, BadUsernameFormat)
      else if |username| < UsernameMinLength || |username| > UsernameMaxLength then (false, BadUsernameLength)
      else if |password| < PasswordMinLength || |password| > PasswordMaxLength then (false, BadPasswordLength)
      else if !PasswordFormatOk(password) then (false, BadPasswordFormat)
      else (true, "")
  }

  /** A trailing newline does not make a valid username invalid, though it counts towards the length. */
  lemma UsernameMayEndInNewline(name: string)
    requires UsernameFormatOk(name) && '\n' !in name
    ensures UsernamePatternMatches(name + "\n")
  {
    var s := name + "\n";
    assert DropFinalNewline(s) == name;
    UsernameFormatIsPattern(s);
  }

  /** A newline inside the password, not at its end, always fails the format check. */
  lemma PasswordInnerNewlineRejected(s: string, i: int)
    requires 0 <= i < |s| - 1 && s[i] == '\n'
    ensures !PasswordPatternMatches(s)
  {
    PasswordFormatIsPattern(s);
    assert DropFinalNewline(s)[i] == '\n';
  }

  // The table of failed attempts

  /** One entry of `users`: the failure count and the lockout time set when the entry was created. */
  datatype Attempts = Attempts(failedAttempts: int, lockoutTime: int)

  /** `rate_limit_exceeded`: the key has an entry with at least `MaxAttempts` failures. */
  predicate Exceeded(users: map<string, Attempts>, key: string)
    ensures Exceeded(users, key) ==> key in users
    ensures key in users ==> (Exceeded(users, key) <==> users[key].failedAttempts >= MaxAttempts)
  {
    key in users && users[key].failedAttempts >= MaxAttempts
  }

  /** The table after `handle_login_failure(key)`; `lockoutTime` is the clock reading plus 15 minutes. */
  function AfterFailure(users: map<string, Attempts>, key: string, lockoutTime: int): (r: map<string, Attempts>)
    ensures r.Keys == users.Keys + {key}
    ensures key in users ==> r[key] == users[key].(failedAttempts := users[key].failedAttempts + 1)
    ensures key !in users ==> r[key] == Attempts(1, lockoutTime)
    ensures forall other :: other in users && other != key ==> r[other] == users[other]
  {
    if key in users then users[key := users[key].(failedAttempts := users[key].failedAttempts + 1)]
    else users[key := Attempts(1, lockoutTime)]
  }

  /** The table after `handle_login_success(key)`. */
  function AfterSuccess(users: map<string, Attempts>, key: string): (r: map<string, Attempts>)
    ensures r.Keys == users.Keys - {key}
    ensures forall other :: other in r ==> r[other] == users[other]
  {
    users - {key}
  }

  /** The table after `n` failures for `key`. */
  function Failures(users: map<string, Attempts>, key: string, n: nat, lockoutTime: int): (r: map<string, Attempts>)
  {
    if n == 0 then users else AfterFailure(Failures(users, key, n - 1, lockoutTime), key, lockoutTime)
  }

  /** From an absent key, `n` failures leave the count at `n` and the lockout time of the first. */
  lemma {:induction false} FailuresCount(users: map<string, Attempts>, key: string, n: nat, lockoutTime: int)
    requires key !in users && n >= 1
    ensures key in Failures(users, key, n, lockoutTime)
    ensures Failures(users, key, n, lockoutTime)[key] == Attempts(n, lockoutTime)
  {
    if n > 1 {
      FailuresCount(users, key, n - 1, lockoutTime);
    }
  }

  /** From an absent key, the limit is reached exactly at the fifth failure. */
  lemma LockedAfterFiveFailures(users: map<string, Attempts>, key: string, n: nat, lockoutTime: int)
    requires key !in users
    ensures Exceeded(Failures(users, key, n, lockoutTime), key) <==> n >= MaxAttempts
  {
    if n >= 1 {
      FailuresCount(users, key, n, lockoutTime);
    }
  }

  /** A success clears the limit for its key, and the next failure starts counting from one again. */
  lemma SuccessResetsCount(users: map<string, Attempts>, key: string, lockoutTime: int)
    ensures !Exceeded(AfterSuccess(users, key), key)
    ensures AfterFailure(AfterSuccess(users, key), key, lockoutTime)[key] == Attempts(1, lockoutTime)
  {
  }

  /** Operations on one key never change whether another key is over the limit. */
  lemma OtherKeysUnaffected(users: map<string, Attempts>, key: string, other: string, lockoutTime: int)
    requires other != key
    ensures Exceeded(AfterFailure(users, key, lockoutTime), other) <==> Exceeded(users, other)
    ensures Exceeded(AfterSuccess(users, key), other) <==> Exceeded(users, other)
  {
  }

  /** The module-level `users` dictionary and the functions that update it in place. */
  class LoginTracker {
    var users: map<string, Attempts>

    constructor()
      ensures users == map[]
    {
      users := map[];
    }

    /** `rate_limit_exceeded(key)`. */
    predicate RateLimitExceeded(key: string)
      reads this
      ensures RateLimitExceeded(key) <==> key in users && users[key].failedAttempts >= MaxAttempts
    {
      Exceeded(users, key)
    }

    /** `handle_login_failure(key)`: count one more failure, or add the key with one failure. */
    method HandleLoginFailure(key: string, lockoutTime: int)
      modifies this
      ensures users == AfterFailure(old(users), key, lockoutTime)
    {
      if key in users {
        var entry := users[key];
        users := users[key := entry.(failedAttempts := entry.failedAttempts + 1)];
      } else {
        users := users[key := Attempts(1, lockoutTime)];
      }
    }

    /** `handle_login_success(key)`: drop the key's entry if there is one. */
    method HandleLoginSuccess(key: string)
      modifies this
      ensures users == AfterSuccess(old(users), key)
    {
      if key in users {
        users := users - {key};
      }
    }
  }
}
