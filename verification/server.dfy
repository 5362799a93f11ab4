/** The default IMAP server the settings form proposes for an address (app.py:152-157). */
module ServerDefaults {
  import opened Strings

  /** The tests of app.py:154-157, in order: a keyword and the server it selects. */
  const Providers: seq<(string, string)> := [
    ("gmail", "imap.gmail.com"),
    ("qq", "imap.qq.com"),
    ("163", "imap.163.com"),
    ("outlook", "outlook.office365.com")
  ]

  /** The `if`/`elif` chain itself, on whatever text it is given. */
  function Classify(s: string): string {
    if Contains(s, "gmail") then "imap.gmail.com"
    else if Contains(s, "qq") then "imap.qq.com"
    else if Contains(s, "163") then "imap.163.com"
    else if Contains(s, "outlook") then "outlook.office365.com"
    else ""
  }

  /** `r` is the server of the first provider whose keyword occurs in `s`,
      or "" when none does. */
  ghost predicate FirstMatch(s: string, r: string) {
    && (r == "" <==> forall j :: 0 <= j < |Providers| ==> !Contains(s, Providers[j].0))
    && (r != "" ==>
          exists j :: 0 <= j < |Providers| && r == Providers[j].1 && Contains(s, Providers[j].0)
                      && forall i :: 0 <= i < j ==> !Contains(s, Providers[i].0))
  }

  lemma ClassifyIsFirstMatch(s: string)
    ensures FirstMatch(s, Classify(s))
  {
    var r := Classify(s);
    if Contains(s, "gmail") {
      assert r == Providers[0].1 && Contains(s, Providers[0].0);
    } else if Contains(s, "qq") {
      assert r == Providers[1].1 && Contains(s, Providers[1].0);
    } else if Contains(s, "163") {
      assert r == Providers[2].1 && Contains(s, Providers[2].0);
    } else if Contains(s, "outlook") {
      assert r == Providers[3].1 && Contains(s, Providers[3].0);
    }
  }

  /** The server proposed for the address typed into the form: nothing until the
      address contains `@`, then the first provider keyword found anywhere in it. */
  function DefaultServer(user: string): (r: string)
    ensures '@' !in user ==> r == ""
    ensures '@' in user ==> FirstMatch(user, r)
  {
    ClassifyIsFirstMatch(user);
    if '@' in user then Classify(user) else ""
  }

  /** As written, the keyword may come from the part before `@`. */
  lemma DefaultServerReadsLocalPart(local: string, domain: string)
    requires Contains(local, "gmail")
    ensures DefaultServer(local + "@" + domain) == "imap.gmail.com"
  {
    ContainsExtend(local, "@" + domain, "gmail");
    assert local + "@" + domain == local + ("@" + domain);
    assert (local + "@" + domain)[|local|] == '@';
  }

  /** The same classification applied to the domain only: the text after the last `@`. */
  function DomainDefaultServer(user: string): (r: string)
    ensures '@' !in user ==> r == ""
    ensures '@' in user ==> FirstMatch(AfterLast(user, '@'), r)
  {
    ClassifyIsFirstMatch(AfterLast(user, '@'));
    if '@' in user then Classify(AfterLast(user, '@')) else ""
  }

  /** With the domain-only test the part before `@` no longer matters. */
  lemma DomainDefaultServerIgnoresLocalPart(local: string, domain: string)
    requires '@' !in domain
    ensures DomainDefaultServer(local + "@" + domain) == Classify(domain)
  {
    AfterLastOf(local, '@', domain);
    assert (local + "@" + domain)[|local|] == '@';
  }

  lemma Classify163()
    ensures Classify("163.com") == "imap.163.com"
  {
    assert HasPrefix("163.com", "163");
    MissingChar("163.com", "gmail", 0);
    MissingChar("163.com", "qq", 0);
  }

  /** The address that shows the difference: a 163.com mailbox whose local part
      mentions gmail. */
  lemma LocalPartCounterexample(user: string)
    requires user == "gmailfan@163.com"
    ensures DefaultServer(user) == "imap.gmail.com"
    ensures DomainDefaultServer(user) == "imap.163.com"
  {
    assert user == "gmailfan" + "@" + "163.com";
    DefaultServerReadsLocalPart("gmailfan", "163.com");
    DomainDefaultServerIgnoresLocalPart("gmailfan", "163.com");
    Classify163();
  }
}
