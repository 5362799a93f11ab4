/** The sender key of the scan (app.py:110): the display name of a decoded
    From value, `sender_name.split("<")[0].strip().replace('"', '')`. */
module Sender {
  import opened Strings

  function CleanName(from: string): (r: string)
    ensures '"' !in r && '<' !in r
    ensures multiset(r) <= multiset(from)
  {
    var display := BeforeFirst(from, '<');
    var trimmed := Trim(display);
    var r := RemoveAll(trimmed, '"');
    SliceMultiset(from, 0, |display|);
    assert display == from[0..|display|];
    assert multiset(display)['<'] == 0;
    r
  }

  /** Only the text before the first `<` matters: two From values with the same
      display part but different addresses give the same key. */
  lemma CleanNameIgnoresAddress(display: string, address: string)
    requires '<' !in display
    ensures CleanName(display + "<" + address) == CleanName(display)
  {
    BeforeFirstOf(display, '<', address);
  }

  /** A name that is already clean is its own key. */
  lemma CleanNameOfCleanName(name: string)
    requires '<' !in name && '"' !in name
    requires name == [] || (!IsSpace(name[0]) && !IsSpace(name[|name| - 1]))
    ensures CleanName(name) == name
  {
    BeforeFirstAbsent(name, '<');
    assert TrimmedAt(name, 0, name);
    TrimUnique(name, 0, name);
    RemoveAllAbsent(name, '"');
  }

  /** The usual `"Name" <address>` form yields `Name`. */
  lemma CleanNameOfQuotedName(name: string, address: string)
    requires '<' !in name && '"' !in name
    ensures CleanName("\"" + name + "\" <" + address) == name
  {
    var quoted := "\"" + name + "\"";
    var display := quoted + " ";
    assert "\"" + name + "\" <" + address == display + "<" + address;
    assert '<' !in display;
    BeforeFirstOf(display, '<', address);
    TrimQuoted(quoted);
    UnquoteQuoted(name);
  }

  lemma TrimQuoted(quoted: string)
    requires |quoted| >= 2 && quoted[0] == '"' && quoted[|quoted| - 1] == '"'
    ensures Trim(quoted + " ") == quoted
  {
    var display := quoted + " ";
    assert display[|quoted|] == ' ';
    assert quoted == display[0..|quoted|];
    assert TrimmedAt(display, 0, quoted);
    TrimUnique(display, 0, quoted);
  }

  lemma UnquoteQuoted(name: string)
    requires '"' !in name
    ensures RemoveAll("\"" + name + "\"", '"') == name
  {
    RemoveAllAppend("\"" + name, "\"", '"');
    RemoveAllAppend("\"", name, '"');
    RemoveAllAbsent(name, '"');
  }
}
