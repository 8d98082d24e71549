/** The login check of mobil_butce.py: the typed user name is lower-cased and
    must be a key of the fixed credential table whose password matches. */
module Login {
  import opened Wrappers

  /** `KULLANICILAR`: user name to password. */
  const Users: map<string, string> := map["mustafa" := "1234", "kardes1" := "abcd", "kardes2" := "0000"]

  function LowerChar(c: char): char {
    if 'A' <= c <= 'Z' then (c as int - 'A' as int + 'a' as int) as char else c
  }

  /** `str.lower()` on ASCII letters; every other character is kept. */
  function Lower(s: string): (r: string)
    ensures |r| == |s|
    ensures forall i :: 0 <= i < |s| ==> r[i] == LowerChar(s[i])
  {
    if |s| == 0 then "" else [LowerChar(s[0])] + Lower(s[1..])
  }

  /** Lower-casing twice changes nothing more. */
  lemma LowerIdempotent(s: string)
    ensures Lower(Lower(s)) == Lower(s)
  {
    assert forall i :: 0 <= i < |s| ==> LowerChar(LowerChar(s[i])) == LowerChar(s[i]);
  }

  /** The "GİRİŞ" button: on success the session's user is the lower-cased
      name; on failure there is no session user. */
  function SignIn(name: string, password: string): (session: Option<string>)
    ensures session.Some? ==> session.value in Users && Users[session.value] == password
    ensures session.Some? ==> session.value == Lower(name)
    ensures session.None? ==> Lower(name) !in Users || Users[Lower(name)] != password
  {
    var n := Lower(name);
    if n in Users && Users[n] == password then Some(n) else None
  }

  /** The user name is not case-sensitive: typing it in any case signs in the same user. */
  lemma SignInIgnoresCase(name: string, password: string)
    ensures SignIn(name, password) == SignIn(Lower(name), password)
  {
    LowerIdempotent(name);
  }

  /** Exactly the three listed name/password pairs sign in. */
  lemma SignInOnlyListedPairs(name: string, password: string)
    ensures SignIn(name, password).Some? <==>
      (Lower(name), password) in {("mustafa", "1234"), ("kardes1", "abcd"), ("kardes2", "0000")}
  {
  }

  /** Names already in lower case are left alone. */
  lemma {:induction false} LowerKeepsLowercase(s: string)
    requires forall i :: 0 <= i < |s| ==> !('A' <= s[i] <= 'Z')
    ensures Lower(s) == s
  {
  }

  /** The password is compared exactly, and the name after lower-casing. */
  lemma SignInExamples()
    ensures SignIn("MUSTAFA", "1234") == Some("mustafa")
    ensures SignIn("kardes1", "ABCD") == None
  {
    var upper, lower := "MUSTAFA", "mustafa";
    assert forall i :: 0 <= i < |upper| ==> LowerChar(upper[i]) == lower[i];
    assert Lower(upper) == lower;
    LowerKeepsLowercase("kardes1");
  }
}
