/**
 * The password-reset e-mail of internal/mailing/mailing.go, and the outbound
 * mail service as an oracle that records what it delivered.
 */
module Mailing {
  import opened Strings

  const ResetUrlBase := "https://app.cloud-castle.ch/password-reset/"

  // The fixed parts of the template, around the greeting name and the link.
  const Greeting := "<p>Hallo "
  const AfterName :=
    "!</p>\n"
    + "\t\t<p>Du hast ein neues Password für <a href=\"https://app.cloud-castle.ch\">Cloud Castle</a> angefragt.</p>\n"
    + "\t\t<p>Wenn du das nicht warst, kannst du diese Nachricht löschen.</p>\n"
    + "\t\t<p>Wenn du das warst, kannst du ein <a href=\""
  const AfterLink :=
    "\">dein Passwort zurücksetzen</a>.</p>\n"
    + "\t\t<p>Liebe Grüsse vom Cloud Castle!</p>"

  /**
   * The greeting name: the address up to its first `@`. An address without `@`
   * makes `strings.Index` return -1 and the slice `email[:-1]` panic, hence the
   * precondition.
   */
  function GreetingName(email: string): (name: string)
    requires '@' in email
    ensures |name| < |email| && email[|name|] == '@'
    ensures name == email[..|name|] && '@' !in name
  {
    email[..Index(email, '@')]
  }

  /** The reset link: the base URL followed by the token, without any escaping. */
  function ResetLink(token: string): (link: string)
    ensures |link| == |ResetUrlBase| + |token|
    ensures link[..|ResetUrlBase|] == ResetUrlBase && link[|ResetUrlBase|..] == token
  {
    ResetUrlBase + token
  }

  /**
   * `CreatePasswordResetEmail(accountId, email, token)`: the fixed template with the
   * greeting name and the link filled in. The greeting name sits right after the
   * opening `<p>Hallo `, the link right after the fixed text that follows it, and the
   * fixed closing text ends the message; nothing else varies.
   */
  function CreatePasswordResetEmail(accountId: int, email: string, token: string): (html: string)
    requires '@' in email
    ensures var name, link := GreetingName(email), ResetLink(token);
      var linkAt := |Greeting| + |name| + |AfterName|;
      && |html| == linkAt + |link| + |AfterLink|
      && html[..|Greeting|] == Greeting
      && html[|Greeting|..|Greeting| + |name|] == name
      && html[|Greeting| + |name|..linkAt] == AfterName
      && html[linkAt..linkAt + |link|] == link
      && html[linkAt + |link|..] == AfterLink
  {
    var name := GreetingName(email);
    var link := ResetLink(token);
    Concatenation(Greeting, name, AfterName, link, AfterLink);
    Greeting + name + AfterName + link + AfterLink
  }

  /** Where each of five concatenated pieces sits in the result. */
  lemma Concatenation(p: string, a: string, q: string, b: string, r: string)
    ensures var s, at := p + a + q + b + r, |p| + |a| + |q|;
      && |s| == at + |b| + |r|
      && s[..|p|] == p && s[|p|..|p| + |a|] == a && s[|p| + |a|..at] == q
      && s[at..at + |b|] == b && s[at + |b|..] == r
  {
    var s := p + a + q + b + r;
    assert s == (((p + a) + q) + b) + r;
  }

  /** The account id plays no part in the message. */
  lemma EmailIgnoresAccountId(a: int, b: int, email: string, token: string)
    requires '@' in email
    ensures CreatePasswordResetEmail(a, email, token) == CreatePasswordResetEmail(b, email, token)
  {
  }

  /**
   * The token can be read back from the message: given the address, the text between
   * the fixed prefix of the link and the closing template is exactly the token.
   */
  lemma {:induction false} TokenRecoverable(accountId: int, email: string, token: string)
    requires '@' in email
    ensures var html := CreatePasswordResetEmail(accountId, email, token);
      var start := |Greeting| + |GreetingName(email)| + |AfterName| + |ResetUrlBase|;
      start <= |html| - |AfterLink| && html[start..|html| - |AfterLink|] == token
  {
    var html := CreatePasswordResetEmail(accountId, email, token);
    var linkAt := |Greeting| + |GreetingName(email)| + |AfterName|;
    var link := ResetLink(token);
    assert html[linkAt..linkAt + |link|] == link;
    assert html[linkAt + |ResetUrlBase|..|html| - |AfterLink|] == link[|ResetUrlBase|..];
  }

  datatype Email = Email(from: string, to: string, subject: string, html: string, stream: string)

  /** The outbound mail service (Postmark): the messages it accepted, in order. */
  class Postmark {
    var delivered: seq<Email>

    constructor ()
      ensures delivered == []
    {
      delivered := [];
    }

    /** `SendPostmarkEmail`: a network call that may fail; only an accepted message is delivered. */
    method Send(message: Email) returns (ok: bool)
      modifies this
      ensures delivered == old(delivered) + (if ok then [message] else [])
    {
      ok :| true;
      if ok {
        delivered := delivered + [message];
      }
    }
  }
}
