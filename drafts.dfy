/** The note form's guard (handleNoteSubmit): both fields are trimmed the way
    String.prototype.trim trims, and a draft with an empty field is refused. */
module Drafts {
  import opened Wrappers

  /** The WhiteSpace and LineTerminator code points of ECMAScript: what trim strips. */
  predicate IsTrimmable(c: char) {
    || c == '\t' || c == '\n' || c == '\U{000B}' || c == '\U{000C}' || c == '\r'
    || c == ' ' || c == '\U{00A0}' || c == '\U{1680}' || ('\U{2000}' <= c <= '\U{200A}')
    || c == '\U{2028}' || c == '\U{2029}' || c == '\U{202F}' || c == '\U{205F}'
    || c == '\U{3000}' || c == '\U{FEFF}'
  }

  predicate AllTrimmable(s: string) {
    forall i :: 0 <= i < |s| ==> IsTrimmable(s[i])
  }

  /** How many leading characters are trimmable: all before it are, and the
      one at it (if any) is not. */
  function Lead(s: string): (n: nat)
    ensures n <= |s|
    ensures forall i :: 0 <= i < n ==> IsTrimmable(s[i])
    ensures n < |s| ==> !IsTrimmable(s[n])
  {
    if s != [] && IsTrimmable(s[0]) then 1 + Lead(s[1..]) else 0
  }

  /** How many trailing characters are trimmable: all from |s| - n on are,
      and the one just before (if any) is not. */
  function Trail(s: string): (n: nat)
    ensures n <= |s|
    ensures forall i :: |s| - n <= i < |s| ==> IsTrimmable(s[i])
    ensures n < |s| ==> !IsTrimmable(s[|s| - 1 - n])
  {
    if s != [] && IsTrimmable(s[|s| - 1]) then 1 + Trail(s[..|s| - 1]) else 0
  }

  /** String.prototype.trim: the piece of `s` that starts at Lead(s), with only
      white space before and after it in `s`; empty exactly when `s` is nothing
      but white space, otherwise starting and ending with a character that is
      not white space. */
  function Trim(s: string): (r: string)
    ensures Lead(s) + |r| <= |s| && r == s[Lead(s)..Lead(s) + |r|]
    ensures forall i :: 0 <= i < Lead(s) ==> IsTrimmable(s[i])
    ensures forall i :: Lead(s) + |r| <= i < |s| ==> IsTrimmable(s[i])
    ensures r == [] <==> AllTrimmable(s)
    ensures r != [] ==> !IsTrimmable(r[0]) && !IsTrimmable(r[|r| - 1])
  {
    var lead := Lead(s);
    if lead == |s| then []
    else
      var trail := Trail(s);
      assert lead < |s| - trail;
      s[lead..|s| - trail]
  }

  /** Trimming twice changes nothing more than trimming once. */
  lemma TrimIdempotent(s: string)
    ensures Trim(Trim(s)) == Trim(s)
  {
    var r := Trim(s);
    if r != [] {
      assert Lead(r) == 0 && Trail(r) == 0;
      assert r[0..|r|] == r;
    }
  }

  /** The title and content handed on to saveNote. */
  datatype Draft = Draft(title: string, content: string)

  /** handleNoteSubmit's check: the draft is refused exactly when the title or
      the content is blank; an accepted draft carries the trimmed fields, both
      non-empty. */
  function ValidateDraft(title: string, content: string): (r: Option<Draft>)
    ensures r.None? <==> AllTrimmable(title) || AllTrimmable(content)
    ensures r.Some? ==> r.value == Draft(Trim(title), Trim(content))
    ensures r.Some? ==> r.value.title != [] && r.value.content != []
  {
    var d := Draft(Trim(title), Trim(content));
    if d.title == [] || d.content == [] then None else Some(d)
  }
}
