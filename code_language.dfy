/** Canonical names for fenced-code info strings
    (apps/desktop/src/editor/codeLanguage.ts). */
module CodeLanguage {
  import opened Wrappers
  import opened Text

  /** The languages offered in the editor's language picker. */
  const Presets: seq<string> :=
    ["plaintext", "python", "c", "cpp", "rust", "typescript", "javascript", "bash", "json", "go", "java"]

  /** Short or alternate spellings and the canonical name each stands for. */
  const AliasMap: map<string, string> := map[
    "py" := "python",
    "python3" := "python",
    "js" := "javascript",
    "ts" := "typescript",
    "c++" := "cpp",
    "cxx" := "cpp",
    "shell" := "bash",
    "sh" := "bash",
    "plain" := "plaintext",
    "text" := "plaintext"
  ]

  /** The lower-case names a plain JavaScript object literal inherits from
      `Object.prototype`, each with the text its value becomes inside a
      template literal: `constructor` is the `Object` function and
      `__proto__` is `Object.prototype` itself. */
  const InheritedKeys: map<string, string> := map[
    "constructor" := "function Object() { [native code] }",
    "__proto__" := "[object Object]"
  ]

  /** The trimmed, lowercased form of a language name. */
  function Key(s: string): string {
    ToLower(Trim(s))
  }

  /** `normalizeCodeLanguage` after `String(input || "")`. */
  function NormalizeText(s: string): (r: string)
    ensures r != ""
  {
    var normalized := Key(s);
    if normalized == "" then "plaintext"
    else if normalized in AliasMap then AliasMap[normalized]
    else normalized
  }

  /** `normalizeCodeLanguage` as written, with its result in the string form
      the fence rewrite writes it in: the object-literal lookup also finds the
      inherited members, which are truthy and so win over the key. */
  function NormalizeTextAsWritten(s: string): (r: string)
    ensures Key(s) in InheritedKeys ==> r == InheritedKeys[Key(s)]
    ensures Key(s) !in InheritedKeys ==> r == NormalizeText(s)
  {
    var normalized := Key(s);
    if normalized == "" then "plaintext"
    else if normalized in AliasMap then AliasMap[normalized]
    else if normalized in InheritedKeys then InheritedKeys[normalized]
    else normalized
  }

  /** `normalizeCodeLanguage`; `None` stands for `null` and `undefined`. */
  function Normalize(input: Option<string>): (r: string)
    ensures r != ""
  {
    NormalizeText(input.GetOr(""))
  }

  /** The key of any input is trimmed and lowercase. */
  lemma KeyIsCanonical(s: string)
    ensures Trim(Key(s)) == Key(s)
    ensures ToLower(Key(s)) == Key(s)
  {
    var t := Trim(s);
    TrimIdentity(t);
    TrimOfLower(t);
    LowerIsLowerCase(t);
  }

  /** Absent, empty and white-space-only input all name plain text. */
  lemma BlankIsPlaintext(input: Option<string>)
    requires input.None? || IsBlank(input.value)
    ensures Normalize(input) == "plaintext"
  {
    if input.Some? {
      TrimEmptyIffBlank(input.value);
    }
  }

  /** Each alias, in any case and surrounded by any white space, maps to its target. */
  lemma AliasMaps(s: string)
    requires Key(s) in AliasMap
    ensures Normalize(Some(s)) == AliasMap[Key(s)]
  {
  }

  /** The alias table spelled out. */
  lemma AliasTable()
    ensures AliasMap.Keys == {"py", "python3", "js", "ts", "c++", "cxx", "shell", "sh", "plain", "text"}
    ensures forall k :: k in AliasMap ==> AliasMap[k] in Presets
  {
  }

  /** Anything else that is not blank comes out trimmed and lowercased, and unchanged otherwise. */
  lemma PassThrough(s: string)
    requires Key(s) != "" && Key(s) !in AliasMap
    ensures Normalize(Some(s)) == Key(s)
  {
  }

  /** Matching ignores case and surrounding white space. */
  lemma UpperCaseAlias()
    ensures NormalizeText("PY") == "python"
  {
    KeyOfUpperPy();
  }

  lemma PaddedAlias()
    ensures NormalizeText(" py ") == "python"
  {
    KeyOfPaddedPy();
  }

  lemma UnknownNamePassesThrough()
    ensures NormalizeText("Rust") == "rust"
  {
    KeyOfRust();
  }

  lemma KeyOfUpperPy()
    ensures Key("PY") == "py"
  {
    TrimOfPlainWord("PY");
    LowerOfUpperPy();
  }

  lemma KeyOfPaddedPy()
    ensures Key(" py ") == "py"
  {
    TrimOfPaddedPy();
    LowerOfPy();
  }

  lemma KeyOfRust()
    ensures Key("Rust") == "rust"
  {
    TrimOfPlainWord("Rust");
    LowerOfRust();
  }

  lemma TrimOfPlainWord(s: string)
    requires s != [] && !IsSpace(s[0]) && !IsSpace(s[|s| - 1])
    ensures Trim(s) == s
  {
    TrimIdentity(s);
  }

  lemma TrimOfPaddedPy()
    ensures Trim(" py ") == "py"
  {
    assert " py "[1..] == "py " && "py "[..2] == "py";
    assert TrimStart("py ") == "py ";
    assert TrimStart(" py ") == "py ";
    assert TrimEnd("py") == "py";
    assert TrimEnd("py ") == "py";
  }

  lemma LowerOfUpperPy()
    ensures ToLower("PY") == "py"
  {
  }

  lemma LowerOfPy()
    ensures ToLower("py") == "py"
  {
  }

  lemma LowerOfRust()
    ensures ToLower("Rust") == "rust"
  {
  }

  /** A name that is already trimmed and lowercase is its own key. */
  lemma CanonicalKey(r: string)
    requires r != [] && !IsSpace(r[0]) && !IsSpace(r[|r| - 1]) && IsLowerCase(r)
    ensures Key(r) == r
  {
    TrimIdentity(r);
    LowerOfLowerCase(r);
  }

  /** The canonical names the table maps to are their own keys... */
  lemma TargetsAreCanonical(r: string)
    requires r in {"python", "javascript", "typescript", "cpp", "bash", "plaintext"}
    ensures Key(r) == r && r !in AliasMap && r !in InheritedKeys
  {
    TargetsAreKeys(r);
    TargetsAreNotAliases(r);
  }

  lemma TargetsAreKeys(r: string)
    requires r in {"python", "javascript", "typescript", "cpp", "bash", "plaintext"}
    ensures Key(r) == r
  {
    if r == "python" { CanonicalKey("python"); }
    else if r == "javascript" { CanonicalKey("javascript"); }
    else if r == "typescript" { CanonicalKey("typescript"); }
    else if r == "cpp" { CanonicalKey("cpp"); }
    else if r == "bash" { CanonicalKey("bash"); }
    else { CanonicalKey("plaintext"); }
  }

  /** ...and none of them is itself an alias. */
  lemma TargetsAreNotAliases(r: string)
    requires r in {"python", "javascript", "typescript", "cpp", "bash", "plaintext"}
    ensures r !in AliasMap
  {
  }

  /** Every result is a fixed point: no alias target is itself an alias key,
      and a passed-through result is already trimmed and lowercase. */
  lemma Idempotent(s: string)
    ensures NormalizeText(NormalizeText(s)) == NormalizeText(s)
  {
    var k := Key(s);
    var r := NormalizeText(s);
    if k == "" || k in AliasMap {
      assert r in {"python", "javascript", "typescript", "cpp", "bash", "plaintext"};
      TargetsAreCanonical(r);
    } else {
      KeyIsCanonical(s);
      assert Key(r) == r;
    }
  }

  /** The same for the nullable entry point. */
  lemma NormalizeIdempotent(input: Option<string>)
    ensures Normalize(Some(Normalize(input))) == Normalize(input)
  {
    Idempotent(input.GetOr(""));
  }
  /** No alias key is an inherited member, so the two lookups differ only on
      the inherited names. */
  lemma AliasesAreOwn()
    ensures forall k :: k in AliasMap ==> k !in InheritedKeys
  {
  }

  /** As written, a non-blank name that is neither an alias nor an inherited
      member comes out trimmed and lowercased. */
  lemma PassThroughAsWritten(s: string)
    requires Key(s) != "" && Key(s) !in AliasMap && Key(s) !in InheritedKeys
    ensures NormalizeTextAsWritten(s) == Key(s)
  {
  }

  /** As written, normalising is idempotent on every name whose key is not an
      inherited member. */
  lemma IdempotentAsWritten(s: string)
    requires Key(s) !in InheritedKeys
    ensures NormalizeTextAsWritten(NormalizeTextAsWritten(s)) == NormalizeTextAsWritten(s)
  {
    var r := NormalizeText(s);
    if Key(s) == "" || Key(s) in AliasMap {
      assert r in {"python", "javascript", "typescript", "cpp", "bash", "plaintext"};
      TargetsAreCanonical(r);
    } else {
      KeyIsCanonical(s);
      assert r == Key(s);
    }
    FixedAsWritten(r);
  }

  /** A non-blank key that is neither an alias nor inherited is its own
      normal form, as written. */
  lemma FixedAsWritten(r: string)
    requires Key(r) == r && r != "" && r !in AliasMap && r !in InheritedKeys
    ensures NormalizeTextAsWritten(r) == r
  {
  }

  /** As written, "constructor" selects the inherited `Object` function. */
  lemma ConstructorAsWritten()
    ensures NormalizeTextAsWritten("constructor") == InheritedKeys["constructor"]
  {
    KeyOfConstructor();
    LongNamesAreNotAliases("constructor");
  }

  /** As written, normalising twice gives the same name exactly when the key
      is not an inherited member: the text of an inherited value has upper-case
      letters, which the second pass lowercases. */
  lemma IdempotentAsWrittenIff(s: string)
    ensures NormalizeTextAsWritten(NormalizeTextAsWritten(s)) == NormalizeTextAsWritten(s)
        <==> Key(s) !in InheritedKeys
  {
    var t := NormalizeTextAsWritten(s);
    if Key(s) !in InheritedKeys {
      IdempotentAsWritten(s);
    } else if Key(s) == "constructor" {
      assert t == "function Object() { [native code] }";
      NotFixed(t, 9);
    } else {
      assert t == "[object Object]";
      NotFixed(t, 8);
    }
  }

  /** As written, "__proto__" selects `Object.prototype`. */
  lemma ProtoAsWritten()
    ensures NormalizeTextAsWritten("__proto__") == InheritedKeys["__proto__"]
  {
    KeyOfProto();
  }

  /** With own keys only, the inherited names pass through like any other. */
  lemma ConstructorPassesThrough()
    ensures NormalizeText("constructor") == "constructor"
  {
    KeyOfConstructor();
    LongNamesAreNotAliases("constructor");
  }

  lemma ProtoPassesThrough()
    ensures NormalizeText("__proto__") == "__proto__"
  {
    KeyOfProto();
  }

  /** A trimmed name with an upper-case letter is not its own normal form. */
  lemma NotFixed(t: string, i: nat)
    requires i < |t| && IsUpper(t[i])
    requires !IsSpace(t[0]) && !IsSpace(t[|t| - 1])
    requires |t| !in {11, 9}
    ensures NormalizeTextAsWritten(t) != t
  {
    TrimIdentity(t);
    ToLowerChars(t);
    assert Key(t)[i] != t[i];
    assert |Key(t)| == |t|;
  }

  /** Every alias key is at most seven characters long. */
  lemma LongNamesAreNotAliases(s: string)
    requires |s| > 7
    ensures s !in AliasMap
  {
  }

  lemma KeyOfConstructor()
    ensures Key("constructor") == "constructor"
  {
    var s := "constructor";
    TrimIdentity(s);
    assert IsLowerCase(s);
    LowerOfLowerCase(s);
  }

  lemma KeyOfProto()
    ensures Key("__proto__") == "__proto__"
  {
    var s := "__proto__";
    TrimIdentity(s);
    assert IsLowerCase(s);
    LowerOfLowerCase(s);
  }
}
