/**
  Normalisation of the log server argument before the add-chain URL is
  resolved against it: a scheme is assumed when none is given and the path
  is made to end in a slash, so that `ct/v1/add-chain` resolves below it.
 */
module LogServerUrl {

  /** `strings.HasPrefix(s, p)`. */
  predicate HasPrefix(s: string, p: string) {
    |p| <= |s| && s[..|p|] == p
  }

  /** `strings.HasSuffix(s, p)`. */
  predicate HasSuffix(s: string, p: string)
    ensures HasSuffix(s, p) ==> |p| <= |s| && s == s[..|s| - |p|] + p
  {
    |p| <= |s| && s[|s| - |p|..] == p
  }

  /** `strings.Contains(s, sub)`, by scanning the start positions left to right. */
  predicate Contains(s: string, sub: string)
    ensures Contains(s, sub) ==> |sub| <= |s|
    ensures sub == [] ==> Contains(s, sub)
    decreases |s|
  {
    HasPrefix(s, sub) || (|s| > 0 && Contains(s[1..], sub))
  }

  /** `sub` occurs in `s` starting at index `i`. */
  predicate OccursAt(s: string, sub: string, i: nat) {
    i + |sub| <= |s| && s[i..i + |sub|] == sub
  }

  /** `Contains` holds exactly when `sub` occurs at some index of `s`. */
  lemma {:induction false} ContainsIffOccurs(s: string, sub: string)
    ensures Contains(s, sub) <==> exists i: nat :: OccursAt(s, sub, i)
    decreases |s|
  {
    if Contains(s, sub) {
      if HasPrefix(s, sub) {
        assert OccursAt(s, sub, 0);
      } else {
        ContainsIffOccurs(s[1..], sub);
        var i: nat :| OccursAt(s[1..], sub, i);
        assert s[1..][i..i + |sub|] == s[i + 1..i + 1 + |sub|];
        assert OccursAt(s, sub, i + 1);
      }
    }
    if exists i: nat :: OccursAt(s, sub, i) {
      var i: nat :| OccursAt(s, sub, i);
      if i > 0 {
        assert s[1..][i - 1..i - 1 + |sub|] == s[i..i + |sub|];
        assert OccursAt(s[1..], sub, i - 1);
        ContainsIffOccurs(s[1..], sub);
      }
    }
  }

  /** An occurrence stays an occurrence when text is appended. */
  lemma ContainsAppend(s: string, t: string, sub: string)
    requires Contains(s, sub)
    ensures Contains(s + t, sub)
  {
    ContainsIffOccurs(s, sub);
    var i: nat :| OccursAt(s, sub, i);
    assert (s + t)[i..i + |sub|] == s[i..i + |sub|];
    assert OccursAt(s + t, sub, i);
    ContainsIffOccurs(s + t, sub);
  }

  const Scheme: string := "https://"

  /** The separator whose absence means the argument names only a host (and path). */
  const SchemeSeparator: string := "://"

  /** The two conditional rewrites of the log server argument in `main`. */
  function Normalize(logServer: string): (r: string)
    ensures Contains(r, SchemeSeparator)
    ensures HasSuffix(r, "/")
    ensures Contains(logServer, SchemeSeparator) ==> HasPrefix(r, logServer)
    ensures !Contains(logServer, SchemeSeparator) ==> HasPrefix(r, Scheme + logServer)
    ensures |r| <= |logServer| + |Scheme| + 1
  {
    var withScheme := if Contains(logServer, SchemeSeparator) then logServer else Scheme + logServer;
    SchemeHasSeparator(logServer);
    if HasSuffix(withScheme, "/") then withScheme
    else
      ContainsAppend(withScheme, "/", SchemeSeparator);
      withScheme + "/"
  }

  /** `https://` followed by anything contains `://`. */
  lemma SchemeHasSeparator(s: string)
    ensures Contains(Scheme + s, SchemeSeparator)
  {
    assert OccursAt(Scheme + s, SchemeSeparator, 5);
    ContainsIffOccurs(Scheme + s, SchemeSeparator);
  }

  /** An argument that already has a scheme separator and a trailing slash is left alone. */
  lemma NormalizeKeepsNormalized(logServer: string)
    requires Contains(logServer, SchemeSeparator) && HasSuffix(logServer, "/")
    ensures Normalize(logServer) == logServer
  {
  }

  /** Normalising twice is normalising once. */
  lemma NormalizeIdempotent(logServer: string)
    ensures Normalize(Normalize(logServer)) == Normalize(logServer)
  {
    NormalizeKeepsNormalized(Normalize(logServer));
  }

  /** A slash is appended exactly when the (scheme-completed) argument does not end in one. */
  lemma NormalizeAddsOnlyWhatIsMissing(logServer: string)
    ensures Contains(logServer, SchemeSeparator) ==>
      Normalize(logServer) == logServer || Normalize(logServer) == logServer + "/"
    ensures !Contains(logServer, SchemeSeparator) ==>
      Normalize(logServer) == Scheme + logServer || Normalize(logServer) == Scheme + logServer + "/"
    ensures HasSuffix(logServer, "/") ==>
      Normalize(logServer) == logServer || Normalize(logServer) == Scheme + logServer
  {
  }

  /** Text without a colon cannot contain `://`. */
  lemma {:induction false} NoColonNoSeparator(s: string)
    requires forall i :: 0 <= i < |s| ==> s[i] != ':'
    ensures !Contains(s, SchemeSeparator)
    decreases |s|
  {
    if |s| > 0 {
      assert s[0] != ':';
      NoColonNoSeparator(s[1..]);
    }
  }

  /** A host name (and path) without any colon and without a trailing slash gets both rewrites. */
  lemma NormalizeBareHost(host: string)
    requires forall i :: 0 <= i < |host| ==> host[i] != ':'
    requires host != [] && host[|host| - 1] != '/'
    ensures Normalize(host) == Scheme + host + "/"
  {
    NoColonNoSeparator(host);
    var withScheme := Scheme + host;
    assert withScheme[|withScheme| - 1] == host[|host| - 1];
  }

  /** The empty argument becomes `https://`, which already ends in a slash. */
  lemma NormalizeEmpty()
    ensures Normalize("") == "https://"
  {
  }
}
