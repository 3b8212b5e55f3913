/**
 The e-mail shape check `validarCorreo`, the anchored regular expression
 `^[^\s@]+@[^\s@]+\.[^\s@]+$`.

 The regular expression is modelled by its structure: three non-empty runs of
 plain characters (neither white space nor `@`) separated by an `@` and a
 `.`. It is then shown equal to a definition that splits the address at its
 one `@`.
 */
module Correo {

  /**
   `\s` in a JavaScript regular expression: the ECMAScript WhiteSpace and
   LineTerminator code points (tab, line feed, vertical tab, form feed,
   carriage return, space, no-break space, the byte-order mark and the other
   space separators, line and paragraph separators).
   */
  predicate IsWhitespace(c: char): (w: bool)
    ensures ('!' <= c <= '~') ==> !w
    ensures w ==> c <= ' ' || '\U{A0}' <= c
  {
    || c == '\t' || c == '\n' || c == '\U{B}' || c == '\U{C}' || c == '\r' || c == ' '
    || c == '\U{A0}' || c == '\U{1680}' || ('\U{2000}' <= c <= '\U{200A}')
    || c == '\U{2028}' || c == '\U{2029}' || c == '\U{202F}' || c == '\U{205F}'
    || c == '\U{3000}' || c == '\U{FEFF}'
  }

  /** `[^\s@]` */
  predicate Plain(c: char) {
    !IsWhitespace(c) && c != '@'
  }

  /** `[^\s@]*`; non-emptiness is stated where a run is used. */
  predicate AllPlain(t: string) {
    forall k :: 0 <= k < |t| ==> Plain(t[k])
  }

  /**
   The regular expression: some `@` at position `i` and some `.` at position
   `j` split the address into three non-empty plain runs.
   */
  predicate ValidarCorreo(correo: string): (ok: bool)
    ensures ok ==> 5 <= |correo| && correo[0] != '@' && correo[|correo| - 1] != '@'
    ensures ok ==> (exists i :: 0 < i < |correo| && correo[i] == '@') && !IsWhitespace(correo[0])
  {
    exists i | 0 < i < |correo| ::
      exists j | i + 1 < j < |correo| - 1 ::
        && correo[i] == '@' && correo[j] == '.'
        && AllPlain(correo[..i]) && AllPlain(correo[i + 1..j]) && AllPlain(correo[j + 1..])
  }

  // ---------------------------------------------------------------------------
  // The split-based characterisation

  predicate NoWhitespace(s: string) {
    forall k :: 0 <= k < |s| ==> !IsWhitespace(s[k])
  }

  /** `s[i]` is the only `@` in `s`. */
  predicate OnlyAt(s: string, i: int)
    requires 0 <= i < |s|
  {
    s[i] == '@' && forall k :: 0 <= k < |s| && k != i ==> s[k] != '@'
  }

  /** `d` has a `.` that is neither its first nor its last character. */
  predicate HasInnerDot(d: string) {
    exists k :: 0 < k < |d| - 1 && d[k] == '.'
  }

  /**
   No white space; exactly one `@`, not the first character; and in the
   domain, the part after the `@`, a dot that is neither first nor last.
   */
  predicate EmailSpec(s: string) {
    && NoWhitespace(s)
    && exists i :: 0 < i < |s| && OnlyAt(s, i) && HasInnerDot(s[i + 1..])
  }

  /** Every address the regular expression accepts meets the split-based definition. */
  lemma ValidarCorreoSound(s: string)
    requires ValidarCorreo(s)
    ensures EmailSpec(s)
  {
    var i, j :| 0 < i < |s| && i + 1 < j < |s| - 1
      && s[i] == '@' && s[j] == '.'
      && AllPlain(s[..i]) && AllPlain(s[i + 1..j]) && AllPlain(s[j + 1..]);
    forall k | 0 <= k < |s| && k != i && k != j
      ensures Plain(s[k])
    {
      if k < i {
        assert s[..i][k] == s[k];
      } else if k < j {
        assert s[i + 1..j][k - (i + 1)] == s[k];
      } else {
        assert s[j + 1..][k - (j + 1)] == s[k];
      }
    }
    assert OnlyAt(s, i);
    assert s[i + 1..][j - (i + 1)] == '.';
  }

  /** Every address meeting the split-based definition is accepted by the regular expression. */
  lemma ValidarCorreoComplete(s: string)
    requires EmailSpec(s)
    ensures ValidarCorreo(s)
  {
    var i :| 0 < i < |s| && OnlyAt(s, i) && HasInnerDot(s[i + 1..]);
    var k :| 0 < k < |s[i + 1..]| - 1 && s[i + 1..][k] == '.';
    var j := i + 1 + k;
    assert s[j] == '.';
    assert forall m :: 0 <= m < |s| && m != i ==> Plain(s[m]);
    assert AllPlain(s[..i]) by {
      assert forall m :: 0 <= m < i ==> s[..i][m] == s[m];
    }
    assert AllPlain(s[i + 1..j]) by {
      assert forall m :: i + 1 <= m < j ==> s[i + 1..j][m - (i + 1)] == s[m];
    }
    assert AllPlain(s[j + 1..]) by {
      assert forall m :: j + 1 <= m < |s| ==> s[j + 1..][m - (j + 1)] == s[m];
    }
  }

  lemma ValidarCorreoCharacterised(s: string)
    ensures ValidarCorreo(s) <==> EmailSpec(s)
  {
    if ValidarCorreo(s) {
      ValidarCorreoSound(s);
    }
    if EmailSpec(s) {
      ValidarCorreoComplete(s);
    }
  }

  lemma EmailExamples()
    ensures ValidarCorreo("a@b.com")
    ensures !ValidarCorreo("a@b") && !ValidarCorreo("a b@c.com") && !ValidarCorreo("noatsign.com")
  {
    var ok := "a@b.com";
    assert ok[1] == '@' && ok[3] == '.';
    assert AllPlain(ok[..1]) && AllPlain(ok[2..3]) && AllPlain(ok[4..]);
    ValidarCorreoCharacterised("a b@c.com");
    assert IsWhitespace("a b@c.com"[1]);
    ValidarCorreoCharacterised("noatsign.com");
    assert forall k :: 0 <= k < |"noatsign.com"| ==> "noatsign.com"[k] != '@';
  }
}
