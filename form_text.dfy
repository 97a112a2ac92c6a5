/**
 * The form's text helpers: JavaScript's String.prototype.trim, the list of
 * student names (getStudentNames) and the required-fields test (validateForm).
 */
module FormText {

  /** The characters String.prototype.trim removes: WhiteSpace and LineTerminator of ECMAScript. */
  predicate IsWhitespace(c: char) {
    || c == '\U{0009}' || c == '\U{000A}' || c == '\U{000B}' || c == '\U{000C}' || c == '\U{000D}'
    || c == '\U{0020}' || c == '\U{00A0}' || c == '\U{1680}'
    || ('\U{2000}' <= c <= '\U{200A}')
    || c == '\U{2028}' || c == '\U{2029}' || c == '\U{202F}' || c == '\U{205F}'
    || c == '\U{3000}' || c == '\U{FEFF}'
  }

  predicate AllWhitespace(s: string) {
    forall i :: 0 <= i < |s| ==> IsWhitespace(s[i])
  }

  /** `s` without its leading whitespace. */
  function TrimStart(s: string): (r: string)
    ensures |r| <= |s|
  {
    if s != [] && IsWhitespace(s[0]) then TrimStart(s[1..]) else s
  }

  /** `s` without its trailing whitespace. */
  function TrimEnd(s: string): (r: string)
    ensures |r| <= |s|
  {
    if s != [] && IsWhitespace(s[|s| - 1]) then TrimEnd(s[..|s| - 1]) else s
  }

  /** `s` with whitespace removed at both ends. */
  function Trim(s: string): (r: string)
    ensures |r| <= |s|
  {
    TrimEnd(TrimStart(s))
  }

  /** TrimStart removes a whitespace prefix and stops at the first other character. */
  lemma {:induction false} TrimStartSpec(s: string)
    ensures var r := TrimStart(s);
            && r == s[|s| - |r|..]
            && AllWhitespace(s[..|s| - |r|])
            && (r == [] || !IsWhitespace(r[0]))
  {
    if s != [] && IsWhitespace(s[0]) {
      TrimStartSpec(s[1..]);
      var r := TrimStart(s);
      var k := |s| - |r|;
      assert s[1..][..k - 1] == s[1..k];
      forall i | 0 <= i < k ensures IsWhitespace(s[..k][i]) {
        if i > 0 { assert s[..k][i] == s[1..][..k - 1][i - 1]; }
      }
    }
  }

  /** TrimEnd removes a whitespace suffix and stops at the last other character. */
  lemma {:induction false} TrimEndSpec(s: string)
    ensures var r := TrimEnd(s);
            && r == s[..|r|]
            && AllWhitespace(s[|r|..])
            && (r == [] || !IsWhitespace(r[|r| - 1]))
  {
    if s != [] && IsWhitespace(s[|s| - 1]) {
      var p := s[..|s| - 1];
      TrimEndSpec(p);
      var r := TrimEnd(s);
      assert p[..|r|] == s[..|r|];
      forall i | |r| <= i < |s| ensures IsWhitespace(s[i]) {
        if i < |s| - 1 { assert s[i] == p[|r|..][i - |r|]; }
      }
      assert forall i :: 0 <= i < |s[|r|..]| ==> s[|r|..][i] == s[|r| + i];
    }
  }

  /** The trimmed string neither starts nor ends with whitespace. */
  lemma TrimSpec(s: string)
    ensures Trim(s) == [] || (!IsWhitespace(Trim(s)[0]) && !IsWhitespace(Trim(s)[|Trim(s)| - 1]))
  {
    var l := TrimStart(s);
    TrimStartSpec(s);
    TrimEndSpec(l);
    var r := TrimEnd(l);
    if r != [] {
      assert r[0] == l[0];
    }
  }

  /** What trimming leaves is a slice of `s` with only whitespace around it. */
  lemma TrimIsSlice(s: string)
    ensures exists a, b :: 0 <= a <= b <= |s| && Trim(s) == s[a..b] && AllWhitespace(s[..a]) && AllWhitespace(s[b..])
  {
    var l := TrimStart(s);
    TrimStartSpec(s);
    TrimEndSpec(l);
    var a := |s| - |l|;
    var r := TrimEnd(l);
    var b := a + |r|;
    assert s[a..b] == l[..|r|];
    assert s[b..] == l[|r|..];
  }

  /** Trimming empties a string exactly when it is all whitespace. */
  lemma TrimEmptyIff(s: string)
    ensures Trim(s) == [] <==> AllWhitespace(s)
  {
    var l := TrimStart(s);
    TrimStartSpec(s);
    TrimEndSpec(l);
    if Trim(s) == [] {
      assert l[0..] == l;
      assert l == [];
      assert s[..|s|] == s;
    } else {
      TrimIsSlice(s);
      var a, b :| 0 <= a <= b <= |s| && Trim(s) == s[a..b] && AllWhitespace(s[..a]) && AllWhitespace(s[b..]);
      TrimSpec(s);
      assert s[a] == Trim(s)[0];
    }
  }

  /** Trimming twice is trimming once. */
  lemma TrimIdempotent(s: string)
    ensures Trim(Trim(s)) == Trim(s)
  {
    var t := Trim(s);
    TrimSpec(s);
    assert t != [] ==> TrimStart(t) == t;
    assert t != [] ==> TrimEnd(t) == t;
  }

  /** The trimmed, non-empty names of the student fields, in field order (the map and filter of getStudentNames). */
  function NonEmptyNames(inputs: seq<string>): (r: seq<string>)
    ensures |r| <= |inputs|
  {
    if inputs == [] then []
    else
      var t := Trim(inputs[0]);
      var rest := NonEmptyNames(inputs[1..]);
      if t == [] then rest else [t] + rest
  }

  /** The surviving names are non-empty and already trimmed. */
  lemma {:induction false} NonEmptyNamesTrimmed(inputs: seq<string>)
    ensures forall i :: 0 <= i < |NonEmptyNames(inputs)| ==> NonEmptyNames(inputs)[i] != [] && Trim(NonEmptyNames(inputs)[i]) == NonEmptyNames(inputs)[i]
  {
    if inputs != [] {
      NonEmptyNamesTrimmed(inputs[1..]);
      TrimIdempotent(inputs[0]);
    }
  }

  /** `names` joined with `sep` between consecutive entries (Array.prototype.join). */
  function Join(names: seq<string>, sep: string): (r: string)
    ensures names == [] ==> r == []
    ensures |names| == 1 ==> r == names[0]
  {
    if names == [] then []
    else if |names| == 1 then names[0]
    else names[0] + sep + Join(names[1..], sep)
  }

  function TotalLength(names: seq<string>): nat
  {
    if names == [] then 0 else |names[0]| + TotalLength(names[1..])
  }

  /** A joined list holds every character of every name plus one separator between each two names. */
  lemma {:induction false} JoinLength(names: seq<string>, sep: string)
    requires names != []
    ensures |Join(names, sep)| == TotalLength(names) + |sep| * (|names| - 1)
  {
    if |names| > 1 {
      JoinLength(names[1..], sep);
    }
  }

  /** Joining one more name appends the separator and that name. */
  lemma {:induction false} JoinAppend(names: seq<string>, x: string, sep: string)
    requires names != []
    ensures Join(names + [x], sep) == Join(names, sep) + sep + x
  {
    if |names| > 1 {
      assert (names + [x])[1..] == names[1..] + [x];
      JoinAppend(names[1..], x, sep);
    }
  }

  /** The student list written into the PDF and into the file name. */
  function StudentNames(inputs: seq<string>): string
  {
    Join(NonEmptyNames(inputs), ", ")
  }

  /** validateForm: a class name and at least one student name, both after trimming. */
  predicate ValidateForm(turmaInput: string, studentInputs: seq<string>)
  {
    |Trim(turmaInput)| > 0 && |StudentNames(studentInputs)| > 0
  }

  /** Joining strings that are all non-empty gives the empty string only for an empty list. */
  lemma {:induction false} JoinEmptyIff(names: seq<string>, sep: string)
    requires forall i :: 0 <= i < |names| ==> names[i] != []
    ensures Join(names, sep) == [] <==> names == []
  {
    if |names| > 1 {
      assert |Join(names, sep)| >= |names[0]|;
    }
  }

  /** Every field's name is kept, in order: the list of non-empty names of two field groups is the two lists one after the other. */
  lemma {:induction false} NonEmptyNamesAppend(a: seq<string>, b: seq<string>)
    ensures NonEmptyNames(a + b) == NonEmptyNames(a) + NonEmptyNames(b)
  {
    if a == [] {
      assert a + b == b;
    } else {
      assert (a + b)[1..] == a[1..] + b;
      NonEmptyNamesAppend(a[1..], b);
    }
  }

  /** A single field gives its trimmed value, unless it is all whitespace. */
  lemma NonEmptyNamesOne(s: string)
    ensures NonEmptyNames([s]) == if AllWhitespace(s) then [] else [Trim(s)]
  {
    TrimEmptyIff(s);
    var xs: seq<string> := [s];
    assert xs[1..] == [];
  }

  /** No name survives exactly when every field trims to empty. */
  lemma {:induction false} NonEmptyNamesEmptyIff(inputs: seq<string>)
    ensures NonEmptyNames(inputs) == [] <==> forall i :: 0 <= i < |inputs| ==> AllWhitespace(inputs[i])
  {
    if inputs != [] {
      NonEmptyNamesEmptyIff(inputs[1..]);
      TrimEmptyIff(inputs[0]);
      assert forall j :: 0 <= j < |inputs[1..]| ==> inputs[1..][j] == inputs[j + 1];
      assert (forall i :: 0 <= i < |inputs| ==> AllWhitespace(inputs[i]))
             <==> AllWhitespace(inputs[0]) && forall j :: 0 <= j < |inputs[1..]| ==> AllWhitespace(inputs[1..][j]);
    }
  }

  /** The form is valid exactly when the class field and at least one student field hold a non-whitespace character. */
  lemma ValidateFormIff(turmaInput: string, studentInputs: seq<string>)
    ensures ValidateForm(turmaInput, studentInputs)
            <==> !AllWhitespace(turmaInput) && exists i :: 0 <= i < |studentInputs| && !AllWhitespace(studentInputs[i])
  {
    TrimEmptyIff(turmaInput);
    NonEmptyNamesEmptyIff(studentInputs);
    NonEmptyNamesTrimmed(studentInputs);
    JoinEmptyIff(NonEmptyNames(studentInputs), ", ");
  }
}
