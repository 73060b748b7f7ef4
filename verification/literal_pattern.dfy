/** A reference semantics for a fragment of Python regular expressions,
    used to check what the channel-message pattern asks of a reply. The
    fragment holds patterns made of ordinary characters and of backslash
    escapes of non-alphanumeric characters; `re.match` with such a pattern
    succeeds exactly when the text starts with the literal the pattern
    stands for (DOTALL makes no difference without `.`). */
module LiteralPattern {
  import opened Outcomes
  import opened Text

  /** Characters with a special meaning in a Python regular expression. */
  predicate IsMeta(c: char) {
    || c == '.' || c == '^' || c == '$' || c == '*' || c == '+' || c == '?'
    || c == '{' || c == '}' || c == '[' || c == ']' || c == '\\' || c == '|'
    || c == '(' || c == ')'
  }

  predicate IsAlphaNumeric(c: char) {
    ('a' <= c <= 'z') || ('A' <= c <= 'Z') || ('0' <= c <= '9') || c == '_'
  }

  /** The literal text a fragment pattern stands for, or `None` when the
      pattern uses regular-expression operators. */
  function Literal(p: string): (r: Option<string>)
    ensures r.Some? ==> |r.value| <= |p|
    decreases |p|
  {
    if |p| == 0 then Some("")
    else if p[0] == '\\' then
      if |p| >= 2 && !IsAlphaNumeric(p[1]) then
        match Literal(p[2..])
        case None => None
        case Some(rest) => Some([p[1]] + rest)
      else None
    else if IsMeta(p[0]) then None
    else
      match Literal(p[1..])
      case None => None
      case Some(rest) => Some([p[0]] + rest)
  }

  /** `re.match(p, text, re.DOTALL)` for a pattern of the fragment. */
  predicate LiteralMatch(p: string, text: string) {
    Literal(p).Some? && StartsWith(text, Literal(p).value)
  }

  /** A pattern made only of ordinary characters stands for itself. */
  predicate Plain(s: string) {
    forall i :: 0 <= i < |s| ==> !IsMeta(s[i])
  }

  lemma {:induction false} LiteralOfPlainPrefix(a: string, p: string)
    requires Plain(a)
    ensures Literal(a + p).Some? <==> Literal(p).Some?
    ensures Literal(p).Some? ==> Literal(a + p) == Some(a + Literal(p).value)
    decreases |a|
  {
    if |a| > 0 {
      assert (a + p)[0] == a[0] && !IsMeta(a[0]) && a[0] != '\\';
      assert (a + p)[1..] == a[1..] + p;
      assert Plain(a[1..]) by {
        forall i | 0 <= i < |a[1..]| ensures !IsMeta(a[1..][i]) {
          assert a[1..][i] == a[i + 1];
        }
      }
      LiteralOfPlainPrefix(a[1..], p);
      assert Literal(a + p) == (match Literal(a[1..] + p) case None => None case Some(r) => Some([a[0]] + r));
      if Literal(p).Some? {
        assert [a[0]] + (a[1..] + Literal(p).value) == a + Literal(p).value;
      }
    } else {
      assert a + p == p;
      if Literal(p).Some? {
        assert a + Literal(p).value == Literal(p).value;
      }
    }
  }

  lemma LiteralOfEscapedChar(c: char, p: string)
    requires !IsAlphaNumeric(c)
    requires Literal(p).Some?
    ensures Literal(['\\', c] + p) == Some([c] + Literal(p).value)
  {
    assert (['\\', c] + p)[2..] == p;
  }
}
