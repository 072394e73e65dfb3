/** The signed session cookie. The MAC is any function from a secret and a text to a text
    without dots; HMAC-SHA256 printed in hexadecimal is one. */
module SessionCookie {
  import opened GoStrings

  type Mac = (string, string) -> string

  datatype SessionUser = SessionUser(username: string, role: string)

  datatype Session = Rejected | Accepted(user: SessionUser)

  ghost predicate DotFree(mac: Mac) {
    forall secret, text :: '.' !in mac(secret, text)
  }

  predicate KnownRole(role: string) {
    role in {"viewer", "operator", "admin"}
  }

  function Sign(mac: Mac, secret: string, text: string): string {
    text + "." + mac(secret, text)
  }

  /** The payload and whether its signature is right; the payload comes back either way. */
  function Verify(mac: Mac, secret: string, signed: string): (string, bool) {
    var idx := LastIndex(signed, '.');
    if idx < 0 then ("", false)
    else
      var text, sig := signed[..idx], signed[idx + 1..];
      (text, sig == mac(secret, text))
  }

  /** The payload that a login of `username` puts into the cookie. */
  function Payload(username: string, role: string): string {
    username + ":" + role
  }

  function ReadSession(mac: Mac, secret: string, cookie: string): Session {
    var (payload, ok) := Verify(mac, secret, cookie);
    if !ok then Rejected
    else
      var i := Index(payload, ':');
      if i < 0 then Rejected
      else
        var username, role := payload[..i], payload[i + 1..];
        if username == "" || !KnownRole(role) then Rejected
        else Accepted(SessionUser(username, role))
  }

  /** A signed text splits at its last dot, even when the payload has dots of its own. */
  lemma SignedSplit(text: string, sig: string)
    requires '.' !in sig
    ensures var signed := text + "." + sig;
            var i := LastIndex(signed, '.');
            i == |text| && signed[..i] == text && signed[i + 1..] == sig
  {
    var signed := text + "." + sig;
    assert signed[|text|] == '.';
    assert forall k :: |text| < k < |signed| ==> signed[k] == sig[k - |text| - 1];
  }

  /** Verification accepts exactly the signed texts, and returns the text that was signed. */
  lemma VerifyAcceptsExactlySigned(mac: Mac, secret: string, signed: string, text: string)
    requires DotFree(mac)
    ensures Verify(mac, secret, signed) == (text, true) <==> signed == Sign(mac, secret, text)
  {
    SignedSplit(text, mac(secret, text));
    var i := LastIndex(signed, '.');
    if i >= 0 {
      assert signed == signed[..i] + "." + signed[i + 1..];
    }
  }

  /** A cookie written for a user and role reads back as that identity or not at all, and it
      reads back exactly when the name is a non-empty text without a colon and the role is known. */
  lemma CookieRoundTrip(mac: Mac, secret: string, username: string, role: string)
    requires DotFree(mac)
    ensures var s := ReadSession(mac, secret, Sign(mac, secret, Payload(username, role)));
            && (s == Rejected || s == Accepted(SessionUser(username, role)))
            && (s.Accepted? <==>
                  username != "" && ':' !in username && (role == "viewer" || role == "operator" || role == "admin"))
  {
    var payload := Payload(username, role);
    VerifyAcceptsExactlySigned(mac, secret, Sign(mac, secret, payload), payload);
    FirstColon(username, role);
    hide Verify, Sign, Index, Payload;
  }

  /** The first colon of a payload ends a user name without one; otherwise what follows it holds
      the separating colon and is no role. */
  lemma FirstColon(username: string, role: string)
    ensures var payload := Payload(username, role);
            var i := Index(payload, ':');
            && i >= 0 && (i == |username| <==> ':' !in username)
            && (i == |username| ==> payload[..i] == username && payload[i + 1..] == role)
            && (i != |username| ==> !KnownRole(payload[i + 1..]))
  {
    var payload := Payload(username, role);
    assert payload[|username|] == ':';
    IndexReaches(payload, ':', |username|);
    hide Index, KnownRole;
    var i := Index(payload, ':');
    assert forall k :: 0 <= k < |username| ==> payload[k] == username[k];
    if i == |username| {
      assert payload[..i] == username && payload[i + 1..] == role;
    } else {
      assert payload[i + 1..][|username| - i - 1] == ':';
      NoColonInRole(payload[i + 1..]);
    }
  }

  lemma NoColonInRole(role: string)
    ensures ':' in role ==> !KnownRole(role)
  {
  }

  /** A cookie yields an identity exactly when it is the signature, under the secret, of that
      identity's payload and the identity is one a login can have. */
  lemma ReadSessionExact(mac: Mac, secret: string, cookie: string, u: SessionUser)
    requires DotFree(mac)
    ensures ReadSession(mac, secret, cookie) == Accepted(u) <==>
            && u.username != "" && ':' !in u.username
            && (u.role == "viewer" || u.role == "operator" || u.role == "admin")
            && cookie == Sign(mac, secret, Payload(u.username, u.role))
  {
    CookieRoundTrip(mac, secret, u.username, u.role);
    if ReadSession(mac, secret, cookie) == Accepted(u) {
      var payload := Verify(mac, secret, cookie).0;
      VerifyAcceptsExactlySigned(mac, secret, cookie, payload);
      var i := Index(payload, ':');
      assert payload == payload[..i] + ":" + payload[i + 1..];
    }
  }
}
