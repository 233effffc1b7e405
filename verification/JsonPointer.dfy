/** JSON pointers: the text form with its escaping, and the reading of an
    array index out of a reference token. */

module StringEscape {

  /** s with the occurrences of f, found from left to right, replaced by t. */
  function ReplaceAll(s: string, f: string, t: string): string
    requires f != ""
    decreases |s|
  {
    if |s| < |f| then s
    else if s[..|f|] == f then t + ReplaceAll(s[|f|..], f, t)
    else [s[0]] + ReplaceAll(s[1..], f, t)
  }

  predicate OccursAt(s: string, f: string, pos: nat) {
    pos + |f| <= |s| && s[pos..pos + |f|] == f
  }

  /** `s.find(f, from)`, with |s| for `npos`. */
  method Find(s: string, f: string, from: nat) returns (pos: nat)
    requires f != "" && from <= |s|
    ensures from <= pos <= |s|
    ensures pos < |s| ==> OccursAt(s, f, pos)
    ensures forall q | from <= q < pos :: !OccursAt(s, f, q)
  {
    pos := from;
    while pos + |f| <= |s|
      invariant from <= pos <= |s|
      invariant forall q | from <= q < pos :: !OccursAt(s, f, q)
    {
      if OccursAt(s, f, pos) { return; }
      pos := pos + 1;
    }
    pos := |s|;
  }

  lemma {:induction false} ReplaceAllSkips(s: string, f: string, t: string, n: nat)
    requires f != "" && n <= |s|
    requires forall q | 0 <= q < n :: !OccursAt(s, f, q)
    ensures ReplaceAll(s, f, t) == s[..n] + ReplaceAll(s[n..], f, t)
  {
    if n == 0 {
      assert s[0..] == s;
    } else if |s| < |f| {
      assert s == s[..n] + s[n..];
    } else {
      assert s[0..|f|] == s[..|f|];
      assert !OccursAt(s, f, 0);
      forall q | 0 <= q < n - 1 ensures !OccursAt(s[1..], f, q) {
        assert !OccursAt(s, f, q + 1);
        if q + 1 + |f| <= |s| { assert s[1..][q..q + |f|] == s[q + 1..q + 1 + |f|]; }
      }
      ReplaceAllSkips(s[1..], f, t, n - 1);
      assert s[1..][n - 1..] == s[n..];
      assert [s[0]] + s[1..][..n - 1] == s[..n];
    }
  }

  lemma {:induction false} ReplaceStep(s: string, f: string, t: string, from: nat, pos: nat)
    requires f != "" && from <= pos <= |s| && OccursAt(s, f, pos)
    requires forall q | from <= q < pos :: !OccursAt(s, f, q)
    ensures s[..from] + ReplaceAll(s[from..], f, t) == (s[..pos] + t) + ReplaceAll(s[pos + |f|..], f, t)
  {
    ReplaceAllSkipsTo(s, f, t, from, pos);
    assert s[pos..][..|f|] == f;
    assert s[pos..][|f|..] == s[pos + |f|..];
  }

  /** The loop of `replace_substring`, which edits the string in place. */
  method ReplaceSubstring(s0: string, f: string, t: string) returns (s: string)
    requires f != ""
    ensures s == ReplaceAll(s0, f, t)
  {
    s := s0;
    ghost var done: nat := 0;   // s[..done] is final, s[done..] is still as in s0
    var pos := Find(s, f, 0);
    assert s[..0] + ReplaceAll(s[0..], f, t) == ReplaceAll(s0, f, t) by { assert s[0..] == s0; }
    while pos != |s|
      invariant done <= pos <= |s|
      invariant pos < |s| ==> OccursAt(s, f, pos)
      invariant forall q | done <= q < pos :: !OccursAt(s, f, q)
      invariant s[..done] + ReplaceAll(s[done..], f, t) == ReplaceAll(s0, f, t)
      decreases |s| - done
    {
      ReplaceStep(s, f, t, done, pos);
      ghost var rest := s[pos + |f|..];
      ghost var front := s[..pos] + t;
      s := s[..pos] + t + s[pos + |f|..];
      assert s[..pos + |t|] == front && s[pos + |t|..] == rest;
      done := pos + |t|;
      pos := Find(s, f, pos + |t|);
    }
    ReplaceAllSkipsTo(s, f, t, done, pos);
  }

  lemma ReplaceAllSkipsTo(s: string, f: string, t: string, from: nat, pos: nat)
    requires f != "" && from <= pos <= |s|
    requires forall q | from <= q < pos :: !OccursAt(s, f, q)
    ensures s[..from] + ReplaceAll(s[from..], f, t) == s[..pos] + ReplaceAll(s[pos..], f, t)
  {
    var u := s[from..];
    forall q | 0 <= q < pos - from ensures !OccursAt(u, f, q) {
      assert !OccursAt(s, f, from + q);
      if q + |f| <= |u| { assert u[q..q + |f|] == s[from + q..from + q + |f|]; }
    }
    ReplaceAllSkips(u, f, t, pos - from);
    var tail := ReplaceAll(s[pos..], f, t);
    assert u[pos - from..] == s[pos..];
    calc {
      s[..from] + (u[..pos - from] + tail);
      (s[..from] + u[..pos - from]) + tail;
      { assert s[..from] + u[..pos - from] == s[..pos]; }
      s[..pos] + tail;
    }
  }

  /** Section 4 of RFC 6901: "~" becomes "~0" first, then "/" becomes "~1". */
  function Escape(s: string): string {
    ReplaceAll(ReplaceAll(s, "~", "~0"), "/", "~1")
  }

  function Unescape(s: string): string {
    ReplaceAll(ReplaceAll(s, "~1", "/"), "~0", "~")
  }

  /** Every "~" is followed by "0" or "1". */
  predicate ProperlyEscaped(s: string) {
    forall i | 0 <= i < |s| && s[i] == '~' :: i + 1 < |s| && (s[i + 1] == '0' || s[i + 1] == '1')
  }

  function EscapedChar(c: char): string {
    if c == '~' then "~0" else if c == '/' then "~1" else [c]
  }

  /** Character by character, as section 3 of RFC 6901 describes the escaping. */
  function EscapedChars(s: string): string {
    if s == "" then "" else EscapedChar(s[0]) + EscapedChars(s[1..])
  }

  function TildeChars(s: string): string {
    if s == "" then "" else (if s[0] == '~' then "~0" else [s[0]]) + TildeChars(s[1..])
  }

  lemma {:induction false} TildePass(s: string)
    ensures ReplaceAll(s, "~", "~0") == TildeChars(s)
  {
    if s != "" { TildePass(s[1..]); }
  }

  lemma {:induction false} SlashPass(s: string)
    ensures ReplaceAll(TildeChars(s), "/", "~1") == EscapedChars(s)
  {
    if s != "" {
      var rest := TildeChars(s[1..]);
      SlashPass(s[1..]);
      if s[0] == '~' {
        var u := "~0" + rest;
        assert u[1..] == "0" + rest;
        assert ("0" + rest)[1..] == rest;
        assert ReplaceAll(u, "/", "~1") == "~" + ReplaceAll("0" + rest, "/", "~1");
        assert ReplaceAll(u, "/", "~1") == "~" + ("0" + ReplaceAll(rest, "/", "~1"));
      } else {
        var u := [s[0]] + rest;
        assert u[1..] == rest;
        assert u[..1] == [s[0]];
      }
    }
  }

  /** The two passes in the stated order are the character-wise escaping. */
  lemma EscapeIsCharwise(s: string)
    ensures Escape(s) == EscapedChars(s)
  {
    TildePass(s);
    SlashPass(s);
  }

  lemma {:induction false} UnslashPass(s: string)
    ensures ReplaceAll(EscapedChars(s), "~1", "/") == TildeChars(s)
  {
    if s != "" {
      var e, rest := EscapedChar(s[0]), EscapedChars(s[1..]);
      var u := e + rest;
      UnslashPass(s[1..]);
      if s[0] == '/' {
        assert u[..2] == "~1" && u[2..] == rest;
      } else if s[0] == '~' {
        assert u[..2] == "~0" && u[1..] == "0" + rest;
        assert ReplaceAll("0" + rest, "~1", "/") == "0" + ReplaceAll(rest, "~1", "/") by {
          assert ("0" + rest)[1..] == rest;
          if rest != "" { assert ("0" + rest)[..2][0] == '0'; }
        }
        assert ReplaceAll(u, "~1", "/") == "~" + ("0" + ReplaceAll(rest, "~1", "/"));
      } else {
        assert u[1..] == rest;
        if rest != "" { assert u[..2][0] == s[0]; }
      }
    }
  }

  lemma {:induction false} UntildePass(s: string)
    ensures ReplaceAll(TildeChars(s), "~0", "~") == s
  {
    if s != "" {
      var rest := TildeChars(s[1..]);
      UntildePass(s[1..]);
      if s[0] == '~' {
        var u := "~0" + rest;
        assert u[..2] == "~0" && u[2..] == rest;
      } else {
        var u := [s[0]] + rest;
        assert u[1..] == rest;
        if rest != "" { assert u[..2][0] == s[0]; }
      }
    }
  }

  lemma UnescapeEscape(s: string)
    ensures Unescape(Escape(s)) == s
  {
    EscapeIsCharwise(s);
    UnslashPass(s);
    UntildePass(s);
  }

  lemma {:induction false} EscapedCharsShape(s: string)
    ensures '/' !in EscapedChars(s) && ProperlyEscaped(EscapedChars(s))
  {
    if s != "" {
      EscapedCharsShape(s[1..]);
      var e, rest := EscapedChar(s[0]), EscapedChars(s[1..]);
      var u := e + rest;
      forall i | 0 <= i < |u| && u[i] == '~' ensures i + 1 < |u| && (u[i + 1] == '0' || u[i + 1] == '1') {
        if i >= |e| { assert u[i] == rest[i - |e|]; }
      }
    }
  }

  /** What a legal token stands for, character by character. */
  function DecodedChars(s: string): string
    requires ProperlyEscaped(s)
    decreases |s|
  {
    if s == "" then ""
    else if s[0] == '~' then
      assert s[1] == '0' || s[1] == '1';
      TailIsProper(s, 2);
      [if s[1] == '0' then '~' else '/'] + DecodedChars(s[2..])
    else
      TailIsProper(s, 1);
      [s[0]] + DecodedChars(s[1..])
  }

  lemma TailIsProper(s: string, n: nat)
    requires ProperlyEscaped(s) && n <= |s|
    ensures ProperlyEscaped(s[n..])
  {
    var t := s[n..];
    forall i | 0 <= i < |t| && t[i] == '~' ensures i + 1 < |t| && (t[i + 1] == '0' || t[i + 1] == '1') {
      assert s[i + n] == '~';
    }
  }

  lemma {:induction false} EscapedDecoded(s: string)
    requires ProperlyEscaped(s) && '/' !in s
    ensures EscapedChars(DecodedChars(s)) == s
    decreases |s|
  {
    if s != "" {
      if s[0] == '~' {
        TailIsProper(s, 2);
        EscapedDecoded(s[2..]);
        var u := DecodedChars(s);
        assert u[1..] == DecodedChars(s[2..]);
        assert s == EscapedChar(u[0]) + s[2..];
      } else {
        TailIsProper(s, 1);
        EscapedDecoded(s[1..]);
        var u := DecodedChars(s);
        assert s[0] in s;
        assert u[1..] == DecodedChars(s[1..]);
        assert s == EscapedChar(u[0]) + s[1..];
      }
    }
  }

  /** Every legal token is the escaping of what it is read as. */
  lemma EscapeUnescape(s: string)
    requires ProperlyEscaped(s) && '/' !in s
    ensures Escape(Unescape(s)) == s
  {
    var u := DecodedChars(s);
    EscapedDecoded(s);
    EscapeIsCharwise(u);
    UnescapeEscape(u);
  }

  /** An escaped key is a single reference token and a legal one. */
  lemma EscapeShape(s: string)
    ensures '/' !in Escape(s) && ProperlyEscaped(Escape(s))
  {
    EscapeIsCharwise(s);
    EscapedCharsShape(s);
  }
}

module JsonPointer {
  import opened Wrappers
  import Collections
  import opened StringEscape

  // ----- text to reference tokens --------------------------------------------

  /** s cut at every slash. */
  function SplitAtSlash(s: string): (parts: seq<string>)
    ensures |parts| > 0
  {
    if s == "" then [""]
    else
      var parts := SplitAtSlash(s[1..]);
      if s[0] == '/' then [""] + parts else [[s[0]] + parts[0]] + parts[1..]
  }

  function DecodeTokens(parts: seq<string>): Result<seq<string>> {
    if parts == [] then Ok([])
    else if !ProperlyEscaped(parts[0]) then Err(ParseError(108))
    else
      var rest :- DecodeTokens(parts[1..]);
      Ok([Unescape(parts[0])] + rest)
  }

  /** The reference tokens of a pointer text. */
  function Parse(s: string): Result<seq<string>> {
    if s == "" then Ok([])
    else if s[0] != '/' then Err(ParseError(107))
    else DecodeTokens(SplitAtSlash(s[1..]))
  }

  lemma {:induction false} SplitFirst(a: string, b: string)
    requires '/' !in a
    ensures SplitAtSlash(a) == [a]
    ensures SplitAtSlash(a + "/" + b) == [a] + SplitAtSlash(b)
  {
    var u := a + "/" + b;
    if a == "" {
      assert u[1..] == b;
    } else {
      SplitFirst(a[1..], b);
      assert u[1..] == a[1..] + "/" + b;
      assert [a[0]] + a[1..] == a;
    }
  }

  lemma {:induction false} SplitLast(a: string, e: string)
    requires '/' !in e
    ensures SplitAtSlash(a + "/" + e) == SplitAtSlash(a) + [e]
  {
    var u := a + "/" + e;
    SplitFirst(e, "");
    if a == "" {
      assert u[1..] == e;
    } else {
      SplitLast(a[1..], e);
      assert u[1..] == a[1..] + "/" + e;
      var parts := SplitAtSlash(a[1..]);
      if a[0] == '/' {
        assert [""] + (parts + [e]) == ([""] + parts) + [e];
      } else {
        assert [[a[0]] + (parts + [e])[0]] + (parts + [e])[1..] == ([[a[0]] + parts[0]] + parts[1..]) + [e];
      }
    }
  }

  lemma DecodeSingle(e: string)
    requires ProperlyEscaped(e)
    ensures DecodeTokens([e]) == Ok([Unescape(e)])
  {
    assert [e][1..] == [];
    assert DecodeTokens([e][1..]) == Ok([]);
    assert [Unescape(e)] + [] == [Unescape(e)];
  }

  lemma {:induction false} DecodeAppend(parts: seq<string>, e: string)
    requires ProperlyEscaped(e)
    ensures DecodeTokens(parts).Ok? ==> DecodeTokens(parts + [e]) == Ok(DecodeTokens(parts).value + [Unescape(e)])
  {
    if parts == [] {
      assert parts + [e] == [e];
      DecodeSingle(e);
      assert [] + [Unescape(e)] == [Unescape(e)];
    } else {
      DecodeAppend(parts[1..], e);
      assert (parts + [e])[1..] == parts[1..] + [e];
      if DecodeTokens(parts).Ok? {
        var rest := DecodeTokens(parts[1..]).value;
        assert [Unescape(parts[0])] + (rest + [Unescape(e)]) == ([Unescape(parts[0])] + rest) + [Unescape(e)];
      }
    }
  }

  /** Appending a slash and an escaped part appends one reference token. */
  lemma ParseAppend(path: string, e: string)
    requires Parse(path).Ok? && '/' !in e && ProperlyEscaped(e)
    ensures Parse(path + "/" + e) == Ok(Parse(path).value + [Unescape(e)])
  {
    var u := path + "/" + e;
    if path == "" {
      SplitFirst(e, "");
      assert u[1..] == e;
      DecodeSingle(e);
      assert [] + [Unescape(e)] == [Unescape(e)];
    } else {
      assert u[1..] == path[1..] + "/" + e;
      SplitLast(path[1..], e);
      DecodeAppend(SplitAtSlash(path[1..]), e);
    }
  }

  /** `json_pointer(path + "/" + escape(key))` is `json_pointer(path)` with the key appended. */
  lemma ParseKey(path: string, key: string)
    requires Parse(path).Ok?
    ensures Parse(path + "/" + Escape(key)) == Ok(Parse(path).value + [key])
  {
    EscapeShape(key);
    UnescapeEscape(key);
    ParseAppend(path, Escape(key));
  }

  /** `to_string` of a pointer. */
  function ToText(tokens: seq<string>): string {
    if tokens == [] then ""
    else ToText(tokens[..|tokens| - 1]) + "/" + Escape(tokens[|tokens| - 1])
  }

  /** Reading the text of a pointer gives the pointer back. */
  lemma {:induction false} ParseToText(tokens: seq<string>)
    ensures Parse(ToText(tokens)) == Ok(tokens)
  {
    if tokens != [] {
      var front := tokens[..|tokens| - 1];
      ParseToText(front);
      ParseKey(ToText(front), tokens[|tokens| - 1]);
      assert front + [tokens[|tokens| - 1]] == tokens;
    }
  }

  /** The parts with a slash in front of each. */
  function Joined(parts: seq<string>): string {
    if parts == [] then "" else "/" + parts[0] + Joined(parts[1..])
  }

  lemma {:induction false} JoinSplit(s: string)
    ensures SplitAtSlash(s)[0] + Joined(SplitAtSlash(s)[1..]) == s
  {
    var parts := SplitAtSlash(s);
    if s != "" {
      var rest := SplitAtSlash(s[1..]);
      JoinSplit(s[1..]);
      if s[0] == '/' {
        assert parts[1..] == rest;
        Collections.Associate("/", rest[0], Joined(rest[1..]));
      } else {
        assert parts[1..] == rest[1..];
        Collections.Associate([s[0]], rest[0], Joined(rest[1..]));
      }
    }
  }

  lemma {:induction false} PartsHaveNoSlash(s: string)
    ensures forall part | part in SplitAtSlash(s) :: '/' !in part
  {
    if s != "" {
      var parts, rest := SplitAtSlash(s), SplitAtSlash(s[1..]);
      PartsHaveNoSlash(s[1..]);
      forall part | part in parts ensures '/' !in part {
        if s[0] == '/' {
          if part != "" { assert part in rest; }
        } else {
          assert rest[0] in rest;
          if part != parts[0] { assert part in rest[1..] && part in rest; }
        }
      }
    }
  }

  lemma {:induction false} ToTextCons(t: string, tokens: seq<string>)
    ensures ToText([t] + tokens) == "/" + Escape(t) + ToText(tokens)
  {
    var all := [t] + tokens;
    if tokens == [] {
      assert all[..0] == [];
      assert ToText(all) == ToText(all[..0]) + "/" + Escape(t);
    } else {
      var front := tokens[..|tokens| - 1];
      ToTextCons(t, front);
      assert all[..|all| - 1] == [t] + front;
    }
  }

  lemma {:induction false} TextOfDecoded(parts: seq<string>)
    requires DecodeTokens(parts).Ok? && forall part | part in parts :: '/' !in part
    ensures ToText(DecodeTokens(parts).value) == Joined(parts)
  {
    if parts != [] {
      TextOfDecoded(parts[1..]);
      EscapeUnescape(parts[0]);
      ToTextCons(Unescape(parts[0]), DecodeTokens(parts[1..]).value);
    }
  }

  /** Every text that is read as a pointer is the text of that pointer. */
  lemma {:induction false} TextOfParsed(s: string)
    requires Parse(s).Ok?
    ensures ToText(Parse(s).value) == s
  {
    if s != "" {
      var parts := SplitAtSlash(s[1..]);
      JoinSplit(s[1..]);
      PartsHaveNoSlash(s[1..]);
      TextOfDecoded(parts);
      Collections.Associate("/", parts[0], Joined(parts[1..]));
      assert s == "/" + s[1..];
    }
  }

  lemma {:induction false} DecodeFails(parts: seq<string>)
    ensures DecodeTokens(parts) == Err(ParseError(108)) <==> exists part | part in parts :: !ProperlyEscaped(part)
    ensures DecodeTokens(parts).Err? ==> DecodeTokens(parts) == Err(ParseError(108))
  {
    if parts != [] {
      DecodeFails(parts[1..]);
      if part :| part in parts && !ProperlyEscaped(part) {
        if part != parts[0] { assert part in parts[1..]; }
      }
    }
  }

  lemma ProperFirst(s: string)
    requires s != ""
    ensures ProperlyEscaped(s) <==>
            (s[0] == '~' ==> |s| > 1 && (s[1] == '0' || s[1] == '1')) && ProperlyEscaped(s[1..])
  {
    var t := s[1..];
    if ProperlyEscaped(s) { StringEscape.TailIsProper(s, 1); }
    if ProperlyEscaped(t) {
      forall i | 0 < i < |s| && s[i] == '~' ensures i + 1 < |s| && (s[i + 1] == '0' || s[i + 1] == '1') {
        assert t[i - 1] == '~';
      }
    }
  }

  lemma {:induction false} PartsAreProper(s: string)
    ensures (forall part | part in SplitAtSlash(s) :: ProperlyEscaped(part)) <==> ProperlyEscaped(s)
    ensures SplitAtSlash(s)[0] <= s && (|SplitAtSlash(s)[0]| == |s| || s[|SplitAtSlash(s)[0]|] == '/')
  {
    if s != "" {
      var parts, rest := SplitAtSlash(s), SplitAtSlash(s[1..]);
      PartsAreProper(s[1..]);
      ProperFirst(s);
      hide ProperlyEscaped;
      if s[0] == '/' {
        ProperFirst("/");
        assert parts[1..] == rest;
        assert ProperlyEscaped("") by { NothingIsProper(); }
        assert forall part :: part in parts <==> part == "" || part in rest;
      } else {
        ProperFirst(parts[0]);
        assert parts[0][1..] == rest[0];
        assert rest == [rest[0]] + rest[1..];
        assert forall part :: part in rest <==> part == rest[0] || part in rest[1..];
        assert forall part :: part in parts <==> part == parts[0] || part in rest[1..];
        if rest[0] != "" { assert rest[0][0] == s[1..][0]; }
      }
    }
  }

  lemma NothingIsProper()
    ensures ProperlyEscaped("")
  {
  }

  /** Which texts are pointers, and which of the two errors the others give. */
  lemma {:induction false} ParseFailsExactly(s: string)
    ensures Parse(s).Ok? <==> s == "" || (s[0] == '/' && ProperlyEscaped(s))
    ensures Parse(s) == Err(ParseError(107)) <==> s != "" && s[0] != '/'
    ensures Parse(s) == Err(ParseError(108)) <==> s != "" && s[0] == '/' && !ProperlyEscaped(s)
  {
    if s != "" && s[0] == '/' {
      ProperFirst(s);
      PartsAreProper(s[1..]);
      DecodeFails(SplitAtSlash(s[1..]));
    }
  }

  /** `find_first_of('/', from)`, with |s| for `npos`. */
  method FindSlash(s: string, from: nat) returns (pos: nat)
    requires from <= |s|
    ensures from <= pos <= |s|
    ensures pos < |s| ==> s[pos] == '/'
    ensures '/' !in s[from..pos]
  {
    pos := from;
    while pos < |s| && s[pos] != '/'
      invariant from <= pos <= |s|
      invariant '/' !in s[from..pos]
    {
      pos := pos + 1;
    }
  }

  /** The loop of `split`: `start` is after the previous slash, `slash` at the next one. */
  method Split(s: string) returns (r: Result<seq<string>>)
    ensures r == Parse(s)
  {
    if s == "" { return Ok([]); }
    if s[0] != '/' { return Err(ParseError(107)); }
    var tokens: seq<string> := [];
    var start := 1;
    var slash := FindSlash(s, 1);
    assert Parse(s) == Prepend([], DecodeTokens(SplitAtSlash(s[1..]))) by {
      if Parse(s).Ok? { assert [] + Parse(s).value == Parse(s).value; }
    }
    while true
      invariant 1 <= start <= slash <= |s|
      invariant slash < |s| ==> s[slash] == '/'
      invariant '/' !in s[start..slash]
      invariant Parse(s) == Prepend(tokens, DecodeTokens(SplitAtSlash(s[start..])))
      decreases |s| - start
    {
      var token := s[start..slash];
      DecodeFirst(s, start, slash, tokens);
      var proper := IsProperlyEscaped(token);
      if !proper { return Err(ParseError(108)); }
      tokens := tokens + [Unescape(token)];
      if slash == |s| { return Ok(tokens); }
      start := slash + 1;
      slash := FindSlash(s, start);
    }
  }

  lemma DecodeFirst(s: string, start: nat, slash: nat, tokens: seq<string>)
    requires start <= slash <= |s| && '/' !in s[start..slash]
    requires slash < |s| ==> s[slash] == '/'
    ensures var token := s[start..slash];
            Prepend(tokens, DecodeTokens(SplitAtSlash(s[start..]))) ==
            if !ProperlyEscaped(token) then Err(ParseError(108))
            else if slash == |s| then Ok(tokens + [Unescape(token)])
            else Prepend(tokens + [Unescape(token)], DecodeTokens(SplitAtSlash(s[slash + 1..])))
  {
    var token := s[start..slash];
    if slash == |s| {
      SplitFirst(token, "");
      assert s[start..] == token;
      if ProperlyEscaped(token) { DecodeSingle(token); }
    } else {
      SplitFirst(token, s[slash + 1..]);
      assert s[start..] == token + "/" + s[slash + 1..];
      var parts := SplitAtSlash(s[slash + 1..]);
      assert ([token] + parts)[1..] == parts;
      if DecodeTokens(parts).Ok? {
        var rest := DecodeTokens(parts).value;
        assert tokens + ([Unescape(token)] + rest) == (tokens + [Unescape(token)]) + rest;
      }
    }
  }

  function Prepend(tokens: seq<string>, r: Result<seq<string>>): Result<seq<string>> {
    if r.Ok? then Ok(tokens + r.value) else r
  }

  /** The inner loop of `split`, which visits the "~" of a token. */
  method IsProperlyEscaped(token: string) returns (ok: bool)
    ensures ok == ProperlyEscaped(token)
  {
    var pos := 0;
    while pos < |token|
      invariant pos <= |token|
      invariant forall i | 0 <= i < pos && token[i] == '~' ::
        i + 1 < |token| && (token[i + 1] == '0' || token[i + 1] == '1')
    {
      if token[pos] == '~' && (pos == |token| - 1 || (token[pos + 1] != '0' && token[pos + 1] != '1')) {
        return false;
      }
      pos := pos + 1;
    }
    return true;
  }

  // ----- array indices ---------------------------------------------------------

  const SIZE_MAX: int := 0xFFFF_FFFF_FFFF_FFFF

  predicate IsDigit(c: char) { '0' <= c <= '9' }

  predicate AllDigits(s: string) { forall i | 0 <= i < |s| :: IsDigit(s[i]) }

  function DigitChar(d: nat): char
    requires d < 10
  {
    '0' + d as char
  }

  /** `std::to_string` of an index. */
  function Decimal(n: nat): string {
    if n < 10 then [DigitChar(n)] else Decimal(n / 10) + [DigitChar(n % 10)]
  }

  /** The number that a string of digits writes. */
  function DecimalValue(s: string): nat
    requires AllDigits(s)
  {
    if s == "" then 0
    else DecimalValue(s[..|s| - 1]) * 10 + (s[|s| - 1] as int - '0' as int)
  }

  /** `array_index`: a reference token as a position in an array. */
  function ArrayIndex(s: string): Result<nat> {
    if |s| > 1 && s[0] == '0' then Err(ParseError(106))
    else if |s| > 1 && !('1' <= s[0] <= '9') then Err(ParseError(109))
    else if s == "" || !AllDigits(s) then Err(OutOfRange(404))
    else if DecimalValue(s) > SIZE_MAX then Err(OutOfRange(404))
    else if DecimalValue(s) == SIZE_MAX then Err(OutOfRange(410))
    else Ok(DecimalValue(s))
  }

  lemma {:induction false} DecimalShape(n: nat)
    ensures Decimal(n) != "" && AllDigits(Decimal(n)) && DecimalValue(Decimal(n)) == n
    ensures Decimal(n)[0] == '0' ==> n == 0
    ensures n == 0 ==> Decimal(n) == "0"
  {
    if n < 10 {
      var s := [DigitChar(n)];
      assert s[..0] == "";
      assert DecimalValue(s) == DecimalValue(s[..0]) * 10 + (s[0] as int - '0' as int);
    } else {
      DecimalShape(n / 10);
      var s := Decimal(n / 10) + [DigitChar(n % 10)];
      assert s[..|s| - 1] == Decimal(n / 10);
    }
  }

  /** The index that `diff` writes into a path is the index that `patch` reads. */
  lemma IndexRoundTrip(n: nat)
    requires n < SIZE_MAX
    ensures ArrayIndex(Decimal(n)) == Ok(n)
    ensures '/' !in Decimal(n) && '~' !in Decimal(n) && Decimal(n) != "-"
  {
    DecimalShape(n);
  }

  lemma {:induction false} NothingToReplace(s: string, f: string, t: string)
    requires f != "" && f[0] !in s
    ensures ReplaceAll(s, f, t) == s
    decreases |s|
  {
    if |s| >= |f| {
      assert s[..|f|][0] == s[0];
      NothingToReplace(s[1..], f, t);
    }
  }

  /** A part without "~" stands for itself. */
  lemma PlainToken(s: string)
    requires '~' !in s
    ensures Unescape(s) == s && ProperlyEscaped(s)
  {
    NothingToReplace(s, "~1", "/");
    NothingToReplace(s, "~0", "~");
  }

  lemma ParseIndex(path: string, n: nat)
    requires Parse(path).Ok? && n < SIZE_MAX
    ensures Parse(path + "/" + Decimal(n)) == Ok(Parse(path).value + [Decimal(n)])
  {
    IndexRoundTrip(n);
    PlainToken(Decimal(n));
    ParseAppend(path, Decimal(n));
  }

  lemma ParseEnd(path: string)
    requires Parse(path).Ok?
    ensures Parse(path + "/-") == Ok(Parse(path).value + ["-"])
  {
    PlainToken("-");
    ParseAppend(path, "-");
    assert path + "/" + "-" == path + "/-";
  }
}
