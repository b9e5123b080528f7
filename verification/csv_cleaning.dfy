/**
  Cleaning of user rows read from a CSV file: a row is kept when its email
  passes a fixed pattern and no earlier row with the same user id was kept.
  The file reading and writing around the rows is not modelled; the rows are
  a sequence of records.
*/
module CsvCleaning {

  /** One CSV row, with the three columns the cleaner reads and writes. */
  datatype Row = Row(userId: string, name: string, email: string)

  predicate IsLetter(c: char) {
    'a' <= c <= 'z' || 'A' <= c <= 'Z'
  }

  predicate IsDigit(c: char) {
    '0' <= c <= '9'
  }

  /** The characters `[a-zA-Z0-9._%+-]` allowed before the `@`. */
  predicate IsLocalChar(c: char) {
    IsLetter(c) || IsDigit(c) || c == '.' || c == '_' || c == '%' || c == '+' || c == '-'
  }

  /** The characters `[a-zA-Z0-9.-]` allowed in the domain before its last dot. */
  predicate IsDomainChar(c: char) {
    IsLetter(c) || IsDigit(c) || c == '.' || c == '-'
  }

  predicate AllLocal(s: string) {
    forall i :: 0 <= i < |s| ==> IsLocalChar(s[i])
  }

  predicate AllDomain(s: string) {
    forall i :: 0 <= i < |s| ==> IsDomainChar(s[i])
  }

  predicate AllLetters(s: string) {
    forall i :: 0 <= i < |s| ==> IsLetter(s[i])
  }

  /** The pattern `^[a-zA-Z0-9._%+-]+@[a-zA-Z0-9.-]+\.[a-zA-Z]{2,}$` read as a grammar:
      a non-empty local part, an `@`, a non-empty domain, a dot and two or more letters. */
  ghost predicate MatchesPattern(email: string) {
    exists local: string, domain: string, suffix: string ::
      && email == local + "@" + domain + "." + suffix
      && |local| > 0 && AllLocal(local)
      && |domain| > 0 && AllDomain(domain)
      && |suffix| >= 2 && AllLetters(suffix)
  }

  /** The position of the first `c` in `s`. */
  function FirstIndex(s: string, c: char): (k: nat)
    requires c in s
    ensures k < |s| && s[k] == c
    ensures forall i :: 0 <= i < k ==> s[i] != c
  {
    if s[0] == c then 0 else FirstIndex(s[1..], c) + 1
  }

  /** The position of the last `c` in `s`. */
  function LastIndex(s: string, c: char): (k: nat)
    requires c in s
    ensures k < |s| && s[k] == c
    ensures forall i :: k < i < |s| ==> s[i] != c
  {
    if s[|s| - 1] == c then |s| - 1 else LastIndex(s[..|s| - 1], c)
  }

  /** The part after the `@`: domain characters up to the last dot, then at least two letters. */
  predicate IsValidDomain(d: string) {
    '.' in d &&
    var dot := LastIndex(d, '.');
    0 < dot && AllDomain(d[..dot]) && |d| - dot > 2 && AllLetters(d[dot + 1..])
  }

  /** The whole-string match: a valid local part before the first `@` and a valid domain
      after it. */
  predicate IsWellFormedEmail(email: string) {
    '@' in email &&
    var at := FirstIndex(email, '@');
    0 < at && AllLocal(email[..at]) && IsValidDomain(email[at + 1..])
  }

  /** The email check. The pattern is anchored with `$`, which also matches just before
      a final newline, so a well-formed email followed by one `\n` passes as well. */
  predicate IsValidEmail(email: string) {
    || IsWellFormedEmail(email)
    || (|email| > 0 && email[|email| - 1] == '\n' && IsWellFormedEmail(email[..|email| - 1]))
  }

  /** Splitting a string at a character the left part does not contain finds that character. */
  lemma {:induction false} FirstIndexOfJoin(left: string, c: char, right: string)
    requires forall i :: 0 <= i < |left| ==> left[i] != c
    ensures c in left + [c] + right && FirstIndex(left + [c] + right, c) == |left|
  {
    var s := left + [c] + right;
    assert s[|left|] == c;
  }

  lemma {:induction false} LastIndexOfJoin(left: string, c: char, right: string)
    requires forall i :: 0 <= i < |right| ==> right[i] != c
    ensures c in left + [c] + right && LastIndex(left + [c] + right, c) == |left|
  {
    var s := left + [c] + right;
    assert s[|left|] == c;
  }

  /** Every email the scanning check accepts has the shape the pattern describes. */
  lemma WellFormedMatchesPattern(email: string)
    requires IsWellFormedEmail(email)
    ensures MatchesPattern(email)
  {
    var at := FirstIndex(email, '@');
    var d := email[at + 1..];
    var dot := LastIndex(d, '.');
    var local, domain, suffix := email[..at], d[..dot], d[dot + 1..];
    assert d == domain + "." + suffix;
    assert email == local + "@" + d;
    assert email == local + "@" + domain + "." + suffix;
  }

  /** A domain, a dot and two or more letters pass the domain check: the letters hold no
      dot, so the last dot is the one after the domain. */
  lemma PatternIsValidDomain(domain: string, suffix: string)
    requires |domain| > 0 && AllDomain(domain)
    requires |suffix| >= 2 && AllLetters(suffix)
    ensures IsValidDomain(domain + "." + suffix)
  {
    var d := domain + "." + suffix;
    assert forall i :: 0 <= i < |suffix| ==> IsLetter(suffix[i]);
    assert d == domain + ['.'] + suffix;
    LastIndexOfJoin(domain, '.', suffix);
    assert d[..|domain|] == domain && d[|domain| + 1..] == suffix;
  }

  /** A non-empty local part, an `@` and a valid domain pass the email check: the local
      part holds no `@`, so the split is at the `@` placed between them. */
  lemma LocalAtDomainIsWellFormed(local: string, d: string)
    requires |local| > 0 && AllLocal(local)
    requires IsValidDomain(d)
    ensures IsWellFormedEmail(local + ['@'] + d)
  {
    var email := local + ['@'] + d;
    assert forall i :: 0 <= i < |local| ==> IsLocalChar(local[i]);
    FirstIndexOfJoin(local, '@', d);
    assert email[..|local|] == local && email[|local| + 1..] == d;
  }

  /** Every email of the shape the pattern describes passes the scanning check. */
  lemma PatternIsWellFormed(email: string, local: string, domain: string, suffix: string)
    requires email == local + "@" + domain + "." + suffix
    requires |local| > 0 && AllLocal(local)
    requires |domain| > 0 && AllDomain(domain)
    requires |suffix| >= 2 && AllLetters(suffix)
    ensures IsWellFormedEmail(email)
  {
    var d := domain + "." + suffix;
    assert email == local + ['@'] + d;
    PatternIsValidDomain(domain, suffix);
    LocalAtDomainIsWellFormed(local, d);
  }

  /** The scanning check accepts exactly the strings the pattern describes. */
  lemma WellFormedIffPattern(email: string)
    ensures IsWellFormedEmail(email) <==> MatchesPattern(email)
  {
    if IsWellFormedEmail(email) {
      WellFormedMatchesPattern(email);
    }
    if MatchesPattern(email) {
      var local: string, domain: string, suffix: string :|
        && email == local + "@" + domain + "." + suffix
        && |local| > 0 && AllLocal(local)
        && |domain| > 0 && AllDomain(domain)
        && |suffix| >= 2 && AllLetters(suffix);
      PatternIsWellFormed(email, local, domain, suffix);
    }
  }

  /** A valid email holds exactly one `@`, preceded by a non-empty run of local characters. */
  lemma WellFormedHasOneAt(email: string)
    requires IsWellFormedEmail(email)
    ensures exists at :: 0 < at < |email| && email[at] == '@' && AllLocal(email[..at])
    ensures forall i, j :: 0 <= i < |email| && 0 <= j < |email| && email[i] == '@' && email[j] == '@' ==> i == j
  {
    var at := FirstIndex(email, '@');
    var d := email[at + 1..];
    var dot := LastIndex(d, '.');
    assert d == d[..dot] + d[dot..];
    forall i | at < i < |email| ensures email[i] != '@' {
      var k := i - at - 1;
      assert email[i] == d[k];
      if k < dot {
        assert d[..dot][k] == d[k];
        assert IsDomainChar(d[k]);
      } else if k > dot {
        assert d[dot + 1..][k - dot - 1] == d[k];
        assert IsLetter(d[k]);
      }
    }
    forall i | 0 <= i < at ensures email[i] != '@' {
      assert email[..at][i] == email[i];
    }
  }

  /** The part after the `@` of a valid email ends in a dot and two or more letters,
      preceded by a non-empty run of domain characters. */
  lemma WellFormedDomain(email: string)
    requires IsWellFormedEmail(email)
    ensures exists at, dot :: 0 < at < at + 1 < dot < |email| - 2
                && email[at] == '@' && email[dot] == '.'
                && AllDomain(email[at + 1..dot]) && AllLetters(email[dot + 1..])
  {
    var at := FirstIndex(email, '@');
    var d := email[at + 1..];
    var dot := LastIndex(d, '.');
    assert email[at + 1..at + 1 + dot] == d[..dot];
    assert email[at + 1 + dot + 1..] == d[dot + 1..];
  }

  /** The email check accepts exactly the strings of the pattern's shape, bare or
      followed by a single newline. */
  lemma ValidEmailIffPattern(email: string)
    ensures IsValidEmail(email) <==>
              || MatchesPattern(email)
              || (|email| > 0 && email[|email| - 1] == '\n' && MatchesPattern(email[..|email| - 1]))
  {
    WellFormedIffPattern(email);
    if |email| > 0 {
      WellFormedIffPattern(email[..|email| - 1]);
    }
  }

  /** A well-formed email ends in a letter. */
  lemma WellFormedEndsInLetter(email: string)
    ensures IsWellFormedEmail(email) ==> |email| > 0 && IsLetter(email[|email| - 1])
  {
    if IsWellFormedEmail(email) {
      WellFormedDomain(email);
      var at, dot :| 0 < at < at + 1 < dot < |email| - 2
                  && email[at] == '@' && email[dot] == '.'
                  && AllDomain(email[at + 1..dot]) && AllLetters(email[dot + 1..]);
      assert email[dot + 1..][|email| - dot - 2] == email[|email| - 1];
    }
  }

  /** With a newline appended a well-formed email is no longer well-formed, yet the
      email check still accepts it. */
  lemma NewlineAfterWellFormed(email: string)
    requires IsWellFormedEmail(email)
    ensures !IsWellFormedEmail(email + "\n") && IsValidEmail(email + "\n")
  {
    var e := email + "\n";
    assert e[..|e| - 1] == email;
    WellFormedEndsInLetter(e);
  }

  /** Row `k` is the first row of its user id whose email is valid. */
  ghost predicate IsFirstValid(rows: seq<Row>, k: int)
    requires 0 <= k < |rows|
  {
    && IsValidEmail(rows[k].email)
    && forall j :: 0 <= j < k && rows[j].userId == rows[k].userId ==> !IsValidEmail(rows[j].email)
  }

  /** The rows that are the first valid row of their user id, in input order. */
  ghost function FirstValidRows(rows: seq<Row>): seq<Row>
  {
    if rows == [] then []
    else
      var n := |rows| - 1;
      FirstValidRows(rows[..n]) + (if IsFirstValid(rows, n) then [rows[n]] else [])
  }

  /** Some row of this user id has a valid email. */
  ghost predicate HasValidRow(rows: seq<Row>, id: string) {
    exists j :: 0 <= j < |rows| && rows[j].userId == id && IsValidEmail(rows[j].email)
  }

  function Ids(rows: seq<Row>): set<string> {
    set r | r in rows :: r.userId
  }

  /** Whether a row is the first valid one of its id depends only on the rows before it. */
  lemma FirstValidInPrefix(rows: seq<Row>, n: int, k: int)
    requires 0 <= k < n <= |rows|
    ensures IsFirstValid(rows[..n], k) <==> IsFirstValid(rows, k)
  {
    assert forall j :: 0 <= j <= k ==> rows[..n][j] == rows[j];
  }

  /** One more row is kept exactly when its email is valid and no earlier row of its id
      had a valid email. */
  lemma FirstValidRowsSnoc(prefix: seq<Row>, r: Row)
    ensures FirstValidRows(prefix + [r]) ==
              FirstValidRows(prefix) + (if IsValidEmail(r.email) && !HasValidRow(prefix, r.userId) then [r] else [])
    ensures forall id :: HasValidRow(prefix + [r], id) <==> HasValidRow(prefix, id) || (id == r.userId && IsValidEmail(r.email))
  {
    var rows := prefix + [r];
    assert rows[..|prefix|] == prefix;
    assert forall j :: 0 <= j < |prefix| ==> rows[j] == prefix[j];
    forall id | HasValidRow(rows, id) && !(id == r.userId && IsValidEmail(r.email)) ensures HasValidRow(prefix, id) {
      var j :| 0 <= j < |rows| && rows[j].userId == id && IsValidEmail(rows[j].email);
      assert j < |prefix|;
    }
  }

  /** A user id appears in the output exactly when one of its rows has a valid email. */
  lemma {:induction false} FirstValidRowsIds(rows: seq<Row>)
    ensures forall id :: id in Ids(FirstValidRows(rows)) <==> HasValidRow(rows, id)
    decreases |rows|
  {
    if rows != [] {
      var n := |rows| - 1;
      var prefix := rows[..n];
      FirstValidRowsIds(prefix);
      assert forall j :: 0 <= j < n ==> prefix[j] == rows[j];
      forall id ensures id in Ids(FirstValidRows(rows)) <==> HasValidRow(rows, id) {
        if HasValidRow(prefix, id) {
          var j :| 0 <= j < |prefix| && prefix[j].userId == id && IsValidEmail(prefix[j].email);
          assert rows[j] == prefix[j];
        }
        if HasValidRow(rows, id) && !HasValidRow(prefix, id) {
          var j :| 0 <= j < |rows| && rows[j].userId == id && IsValidEmail(rows[j].email);
          assert j == n;
          assert IsFirstValid(rows, n);
        }
        if IsFirstValid(rows, n) && rows[n].userId == id {
          assert HasValidRow(rows, id);
        }
      }
    }
  }

  /** No two output rows share a user id, and every output email is valid. */
  lemma {:induction false} FirstValidRowsDistinct(rows: seq<Row>)
    ensures var out := FirstValidRows(rows);
            && (forall i, j :: 0 <= i < j < |out| ==> out[i].userId != out[j].userId)
            && (forall r :: r in out ==> IsValidEmail(r.email))
    decreases |rows|
  {
    if rows != [] {
      var n := |rows| - 1;
      var prefix := rows[..n];
      assert rows == prefix + [rows[n]];
      FirstValidRowsDistinct(prefix);
      FirstValidRowsSnoc(prefix, rows[n]);
      FirstValidRowsIds(prefix);
      var prev := FirstValidRows(prefix);
      assert forall i :: 0 <= i < |prev| ==> prev[i].userId in Ids(prev);
    }
  }

  /** Every output row is the first valid row of its user id; a later row never
      replaces it and an earlier invalid row never blocks it. */
  lemma {:induction false} FirstValidRowsAreFirst(rows: seq<Row>)
    ensures forall r :: r in FirstValidRows(rows) ==> exists k :: 0 <= k < |rows| && rows[k] == r && IsFirstValid(rows, k)
    decreases |rows|
  {
    if rows != [] {
      var n := |rows| - 1;
      var prefix := rows[..n];
      FirstValidRowsAreFirst(prefix);
      forall r | r in FirstValidRows(prefix)
        ensures exists k :: 0 <= k < |rows| && rows[k] == r && IsFirstValid(rows, k)
      {
        var k :| 0 <= k < |prefix| && prefix[k] == r && IsFirstValid(prefix, k);
        FirstValidInPrefix(rows, n, k);
      }
    }
  }

  /** Output rows keep the order of their first valid rows in the input. */
  lemma {:induction false} FirstValidRowsInOrder(rows: seq<Row>, i: int, j: int)
    requires 0 <= i < j < |FirstValidRows(rows)|
    ensures exists a, b :: 0 <= a < b < |rows|
              && rows[a] == FirstValidRows(rows)[i] && rows[b] == FirstValidRows(rows)[j]
              && IsFirstValid(rows, a) && IsFirstValid(rows, b)
    decreases |rows|
  {
    var n := |rows| - 1;
    var prefix := rows[..n];
    var prev := FirstValidRows(prefix);
    var out := FirstValidRows(rows);
    assert out[i] == prev[i];
    if j < |prev| {
      assert out[j] == prev[j];
      FirstValidRowsInOrder(prefix, i, j);
      var a, b :| 0 <= a < b < |prefix|
              && prefix[a] == prev[i] && prefix[b] == prev[j]
              && IsFirstValid(prefix, a) && IsFirstValid(prefix, b);
      FirstValidInPrefix(rows, n, a);
      FirstValidInPrefix(rows, n, b);
      assert rows[a] == out[i] && rows[b] == out[j];
    } else {
      assert out[j] == rows[n] && IsFirstValid(rows, n);
      FirstValidRowsAreFirst(prefix);
      assert prev[i] in prev;
      var a :| 0 <= a < |prefix| && prefix[a] == prev[i] && IsFirstValid(prefix, a);
      FirstValidInPrefix(rows, n, a);
      assert rows[a] == out[i];
    }
  }

  /** The cleaning loop: a row is kept when its user id was not kept before and its
      email is valid; kept rows stay in insertion order. */
  method CleanData(rows: seq<Row>) returns (kept: seq<Row>)
    ensures kept == FirstValidRows(rows)
    ensures forall i, j :: 0 <= i < j < |kept| ==> kept[i].userId != kept[j].userId
    ensures forall r :: r in kept ==> IsValidEmail(r.email)
    ensures forall id :: id in Ids(kept) <==> HasValidRow(rows, id)
  {
    var seen: set<string> := {};
    kept := [];
    for i := 0 to |rows|
      invariant kept == FirstValidRows(rows[..i])
      invariant forall id :: id in seen <==> HasValidRow(rows[..i], id)
    {
      var row := rows[i];
      assert rows[..i + 1] == rows[..i] + [row];
      FirstValidRowsSnoc(rows[..i], row);
      if row.userId !in seen && IsValidEmail(row.email) {
        seen := seen + {row.userId};
        kept := kept + [row];
      }
    }
    assert rows[..|rows|] == rows;
    FirstValidRowsDistinct(rows);
    FirstValidRowsIds(rows);
  }
}
