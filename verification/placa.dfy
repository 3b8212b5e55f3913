/**
 The Ecuadorian licence-plate check `validarPlaca`.

 A plate passes when its first character, upper-cased, is one of the
 province letters, and the whole plate, as given, has one of three shapes.
 Each shape is a fixed-length pattern of character classes, which is all the
 anchored regular expressions `^[A-Z]{3}-\d{3}$`, `^[A-Z]{3}-\d{4}$` and
 `^[A-Z]{2}-\d{4}[A-Z]$` can express.
 */
module Placa {
  import opened Ascii

  /** The province letters, in the order the service lists them: `D` and `F` are missing. */
  const Provincias: seq<char> :=
    ['A', 'B', 'C', 'E', 'G', 'H', 'I', 'J', 'K', 'L', 'M', 'N',
     'O', 'P', 'Q', 'R', 'S', 'T', 'U', 'V', 'W', 'X', 'Y', 'Z']

  /** One position of a plate pattern. */
  datatype CharClass = Letter | Digit | Lit(c: char)

  predicate InClass(k: CharClass, c: char) {
    match k
    case Letter => IsUpper(c)
    case Digit => IsDigit(c)
    case Lit(l) => c == l
  }

  /** A fixed-length anchored pattern: one class per position, nothing else. */
  predicate Matches(pattern: seq<CharClass>, s: string) {
    |s| == |pattern| && forall i :: 0 <= i < |s| ==> InClass(pattern[i], s[i])
  }

  /** `ABC-123`, the old format. */
  const FormatoAntiguo: seq<CharClass> := [Letter, Letter, Letter, Lit('-'), Digit, Digit, Digit]
  /** `ABC-1234`, the new format. */
  const FormatoNuevo: seq<CharClass> := [Letter, Letter, Letter, Lit('-'), Digit, Digit, Digit, Digit]
  /** `AB-1234C`, the motorcycle format. */
  const FormatoMoto: seq<CharClass> := [Letter, Letter, Lit('-'), Digit, Digit, Digit, Digit, Letter]

  /**
   `charAt(0)` of the empty string is the empty string, which is not a
   province letter; otherwise the first character is upper-cased before the
   look-up, but the three shapes are tested on the plate as given.
   */
  predicate ValidarPlaca(placa: string): (ok: bool)
    ensures ok ==> (|placa| == 7 || |placa| == 8) && IsUpper(placa[0]) && placa[0] != 'D' && placa[0] != 'F'
  {
    && |placa| > 0
    && UpperChar(placa[0]) in Provincias
    && (Matches(FormatoAntiguo, placa) || Matches(FormatoNuevo, placa) || Matches(FormatoMoto, placa))
  }

  // ---------------------------------------------------------------------------
  // A readable characterisation

  predicate Letters(t: string) {
    forall i :: 0 <= i < |t| ==> IsUpper(t[i])
  }

  predicate Digits(t: string) {
    forall i :: 0 <= i < |t| ==> IsDigit(t[i])
  }

  /**
   Three capital letters, a hyphen and three or four digits; or two capital
   letters, a hyphen, four digits and a capital letter. The plate may not
   start with `D` or `F`.
   */
  predicate PlateSpec(s: string) {
    && |s| > 0 && s[0] != 'D' && s[0] != 'F'
    && (|| (|s| in {7, 8} && Letters(s[..3]) && s[3] == '-' && Digits(s[4..]))
        || (|s| == 8 && Letters(s[..2]) && s[2] == '-' && Digits(s[3..7]) && IsUpper(s[7])))
  }

  /** The province list is exactly the capital letters other than `D` and `F`. */
  lemma ProvinciasExactly(c: char)
    ensures c in Provincias <==> IsUpper(c) && c != 'D' && c != 'F'
  {
    if IsUpper(c) && c != 'D' && c != 'F' {
      var n := c as int - 'A' as int;
      assert 0 <= n < 26;
      if n < 3 {
        assert c == Provincias[n];
      } else if n == 4 {
        assert c == Provincias[3];
      } else {
        assert c == Provincias[n - 2];
      }
    }
  }

  lemma AntiguoShape(s: string)
    ensures Matches(FormatoAntiguo, s) <==> |s| == 7 && Letters(s[..3]) && s[3] == '-' && Digits(s[4..])
  {
    if |s| == 7 {
      assert forall i :: 0 <= i < 3 ==> s[..3][i] == s[i];
      assert forall i :: 4 <= i < 7 ==> s[4..][i - 4] == s[i];
    }
  }

  lemma NuevoShape(s: string)
    ensures Matches(FormatoNuevo, s) <==> |s| == 8 && Letters(s[..3]) && s[3] == '-' && Digits(s[4..])
  {
    if |s| == 8 {
      assert forall i :: 0 <= i < 3 ==> s[..3][i] == s[i];
      assert forall i :: 4 <= i < 8 ==> s[4..][i - 4] == s[i];
    }
  }

  lemma MotoShape(s: string)
    ensures Matches(FormatoMoto, s) <==> |s| == 8 && Letters(s[..2]) && s[2] == '-' && Digits(s[3..7]) && IsUpper(s[7])
  {
    if |s| == 8 {
      assert forall i :: 0 <= i < 2 ==> s[..2][i] == s[i];
      assert forall i :: 3 <= i < 7 ==> s[3..7][i - 3] == s[i];
    }
  }

  lemma ValidarPlacaCharacterised(s: string)
    ensures ValidarPlaca(s) <==> PlateSpec(s)
  {
    AntiguoShape(s);
    NuevoShape(s);
    MotoShape(s);
    if |s| > 0 {
      ProvinciasExactly(UpperChar(s[0]));
      ProvinciasExactly(s[0]);
      if |s| == 7 || |s| == 8 {
        assert Letters(s[..3]) ==> IsUpper(s[..3][0]);
        assert Letters(s[..2]) ==> IsUpper(s[..2][0]);
      }
    }
  }

  /** No plate has two of the shapes: the lengths differ, or position 2 does. */
  lemma ShapesExclusive(s: string)
    ensures !(Matches(FormatoAntiguo, s) && Matches(FormatoNuevo, s))
    ensures !(Matches(FormatoAntiguo, s) && Matches(FormatoMoto, s))
    ensures !(Matches(FormatoNuevo, s) && Matches(FormatoMoto, s))
  {
    if Matches(FormatoNuevo, s) {
      assert InClass(FormatoNuevo[2], s[2]);
    }
  }

  /**
   A plate holding a lower-case letter anywhere is rejected, although the
   province look-up upper-cases the first character: the shapes are tested on
   the plate as given, and only capital letters, digits and `-` pass them.
   */
  lemma LowercaseRejected(s: string)
    requires HasLower(s)
    ensures !ValidarPlaca(s)
  {
    var i :| 0 <= i < |s| && IsLower(s[i]);
  }

  /** So upper-casing a plate that passed the check leaves it unchanged. */
  lemma ValidPlateIsUpper(s: string)
    requires ValidarPlaca(s)
    ensures Upper(s) == s
  {
    if HasLower(s) {
      LowercaseRejected(s);
    }
    UpperFixesExactly(s);
  }

  lemma PlateAcceptedExamples()
    ensures ValidarPlaca("ABC-123") && ValidarPlaca("XYZ-1234") && ValidarPlaca("AB-1234C")
  {
    assert "ABC-123"[0] == Provincias[0];
    assert "XYZ-1234"[0] == Provincias[21];
    assert "AB-1234C"[0] == Provincias[0];
  }

  lemma PlateRejectedExamples()
    ensures !ValidarPlaca("DBC-123") && !ValidarPlaca("FBC-123")
    ensures !ValidarPlaca("ab-12") && !ValidarPlaca("") && !ValidarPlaca("abc-123")
  {
    assert IsLower("abc-123"[0]);
    LowercaseRejected("abc-123");
    ProvinciasExactly('D');
    ProvinciasExactly('F');
  }
}
