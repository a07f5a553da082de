/**
 * Worked examples of the class-name-to-path derivation of src/Autoloader.php.
 * Each string is written as a concatenation of short pieces and each step of a
 * derivation is its own lemma, so that no proof evaluates a long literal.
 */
module AutoloaderExamples {
  import opened Text
  import opened ClassAutoloader

  /** With namespace `Ns\` and folder `F`, class `Ns\Sub_A\My_B` is looked for at `F/sub-a/class-my-b.php`. */
  lemma ExamplePath()
    ensures CandidatePath("Ns\\", "F", "Ns\\" + "Sub_A" + "\\" + "My_B")
         == "F" + "/" + ("sub-a" + "/" + "class-" + "my-b" + ".php")
  {
    LeadingOnly("Ns\\", "Sub_A" + "\\" + "My_B");
    assert "Ns\\" + ("Sub_A" + "\\" + "My_B") == "Ns\\" + "Sub_A" + "\\" + "My_B";
    SplitsInto(["Sub_A", "My_B"], "Sub_A" + "\\" + "My_B");
    PlainClassFile(["Sub_A"], "My_B", "Sub_A" + "/" + "class-" + "My_B" + ".php");
    PathNormalized();
    Derivation("Ns\\", "F", "Ns\\" + "Sub_A" + "\\" + "My_B", "Sub_A" + "\\" + "My_B",
               ["Sub_A", "My_B"], "Sub_A" + "/" + "class-" + "My_B" + ".php",
               "sub-a" + "/" + "class-" + "my-b" + ".php");
  }

  /**
   * A trait directly under the namespace: the file keeps its own name with
   * no `class-` prefix, and since there is no sub-namespace the path holds `//`.
   */
  lemma ExampleTopLevelTrait()
    ensures CandidatePath("Ns\\", "F", "Ns\\" + ("Trait" + "_A"))
         == "F" + "/" + ("/" + "trait" + "-a" + ".php")
  {
    LeadingOnly("Ns\\", "Trait" + "_A");
    SplitsInto(["Trait" + "_A"], "Trait" + "_A");
    TraitFile("_A");
    TraitNormalized();
    Derivation("Ns\\", "F", "Ns\\" + ("Trait" + "_A"), "Trait" + "_A",
               ["Trait" + "_A"], "/" + "Trait" + "_A" + ".php", "/" + "trait" + "-a" + ".php");
  }

  /** The `Interface`/`Trait` test is case-sensitive: a lower-case `trait_a` still gets the `class-` prefix. */
  lemma ExampleLowerCaseTrait()
    ensures CandidatePath("Ns\\", "F", "Ns\\" + ("trait" + "_a"))
         == "F" + "/" + ("/" + "class-" + "trait" + "-a" + ".php")
  {
    LeadingOnly("Ns\\", "trait" + "_a");
    SplitsInto(["trait" + "_a"], "trait" + "_a");
    LowerCaseTraitFile("_a");
    LowerCaseTraitNormalized();
    Derivation("Ns\\", "F", "Ns\\" + ("trait" + "_a"), "trait" + "_a",
               ["trait" + "_a"], "/" + "class-" + "trait" + "_a" + ".php",
               "/" + "class-" + "trait" + "-a" + ".php");
  }

  /**
   * The namespace is removed wherever it occurs: `Ns\Lib\Ns\W` is looked for
   * at `lib/class-w.php`, while removing only the leading namespace gives
   * `lib/ns/class-w.php`.
   */
  lemma ExampleRepeatedNamespace()
    ensures CandidatePath("Ns\\", "F", "Ns\\" + ("Lib" + "\\" + ("Ns\\" + "W")))
         == "F" + "/" + ("lib" + "/" + "class-" + "w" + ".php")
    ensures IntendedCandidatePath("Ns\\", "F", "Ns\\" + ("Lib" + "\\" + ("Ns\\" + "W")))
         == "F" + "/" + ("lib" + "/" + "ns" + "/" + ("class-" + "w") + ".php")
  {
    RepeatedStripped();
    SplitsInto(["Lib", "W"], "Lib" + "\\" + "W");
    PlainClassFile(["Lib"], "W", "Lib" + "/" + ("class-" + "W" + ".php"));
    RepeatedNormalized();
    Assoc("Lib" + "/", "class-" + "W", ".php");
    Assoc("Lib" + "/", "class-", "W");
    Derivation("Ns\\", "F", "Ns\\" + ("Lib" + "\\" + ("Ns\\" + "W")), "Lib" + "\\" + "W", ["Lib", "W"],
               "Lib" + "/" + "class-" + "W" + ".php", "lib" + "/" + "class-" + "w" + ".php");
    RepeatedIntended();
  }

  /** `str_replace` removes both copies of `Ns\`. */
  lemma RepeatedStripped()
    ensures Stripped("Ns\\", "Ns\\" + ("Lib" + "\\" + ("Ns\\" + "W"))) == "Lib" + "\\" + "W"
  {
    ReplaceLeading("Ns\\", "Lib" + "\\" + ("Ns\\" + "W"), "");
    ReplaceSkipWord("Lib" + "\\", "Ns\\" + "W", "Ns\\", "");
    ReplaceLeading("Ns\\", "W", "");
    AbsentFirstChar("W", "Ns\\");
    ReplaceAbsent("W", "Ns\\", "");
  }

  /** Removing only the leading `Ns\` keeps `Ns` as a directory. */
  lemma RepeatedIntended()
    ensures IntendedCandidatePath("Ns\\", "F", "Ns\\" + ("Lib" + "\\" + ("Ns\\" + "W")))
         == "F" + "/" + ("lib" + "/" + "ns" + "/" + ("class-" + "w") + ".php")
  {
    var rest := "Lib" + "\\" + ("Ns\\" + "W");
    assert ("Ns\\" + rest)[3..] == rest;
    assert "Ns\\" + "W" == "Ns" + "\\" + "W";
    SplitsInto(["Lib", "Ns", "W"], rest);
    PlainClassFile(["Lib", "Ns"], "W", "Lib" + "/" + "Ns" + "/" + ("class-" + "W" + ".php"));
    RepeatedIntendedNormalized();
    Assoc("Lib" + "/" + "Ns" + "/", "class-" + "W", ".php");
    IntendedDerivation("Ns\\", "F", "Ns\\" + rest, ["Lib", "Ns", "W"],
                       "Lib" + "/" + "Ns" + "/" + ("class-" + "W") + ".php",
                       "lib" + "/" + "ns" + "/" + ("class-" + "w") + ".php");
  }

  // ---- steps of a derivation ----

  /** The derivation of `file_path`, step by step: strip, explode, build the file name, normalise. */
  lemma Derivation(namespace: string, folder: string, cls: string, rest: string, parts: seq<string>, raw: string, out: string)
    requires Stripped(namespace, cls) == rest
    requires Segments(rest) == parts
    requires Join(parts[..|parts| - 1], "/") + "/" + FileName(parts[|parts| - 1]) == raw
    requires Normalize(raw) == out
    ensures CandidatePath(namespace, folder, cls) == folder + "/" + out
  {
  }

  /** The same derivation with only the leading namespace removed. */
  lemma IntendedDerivation(namespace: string, folder: string, cls: string, parts: seq<string>, raw: string, out: string)
    requires StartsWith(cls, namespace)
    requires Segments(cls[|namespace|..]) == parts
    requires Join(parts[..|parts| - 1], "/") + "/" + FileName(parts[|parts| - 1]) == raw
    requires Normalize(raw) == out
    ensures IntendedCandidatePath(namespace, folder, cls) == folder + "/" + out
  {
  }

  lemma Assoc(x: string, y: string, z: string)
    ensures x + (y + z) == x + y + z
  {
  }

  /** A namespace that leads the name and whose first character does not occur after it is removed once. */
  lemma LeadingOnly(namespace: string, rest: string)
    requires namespace != [] && namespace[0] !in rest
    ensures Stripped(namespace, namespace + rest) == rest
  {
    assert (namespace + rest)[|namespace|..] == rest;
    AbsentFirstChar(rest, namespace);
    StrippedLeading(namespace, namespace + rest);
  }

  lemma SplitsInto(parts: seq<string>, s: string)
    requires |parts| >= 1 && Join(parts, "\\") == s
    requires forall k :: 0 <= k < |parts| ==> '\\' !in parts[k]
    ensures Segments(s) == parts
  {
    SplitJoin(parts, '\\');
  }

  /** A local name starting with neither `I` nor `T` gets the `class-` prefix. */
  lemma PlainClassFile(dirs: seq<string>, name: string, raw: string)
    requires name != [] && name[0] != 'I' && name[0] != 'T'
    requires Join(dirs, "/") + "/" + ("class-" + name + ".php") == raw
    ensures Join((dirs + [name])[..|dirs|], "/") + "/" + FileName((dirs + [name])[|dirs|]) == raw
  {
    assert (dirs + [name])[..|dirs|] == dirs;
    FirstCharDiffers(name, "Interface");
    FirstCharDiffers(name, "Trait");
  }

  /** A local name starting with `Trait` keeps its own name. */
  lemma TraitFile(tail: string)
    ensures Join(["Trait" + tail][..0], "/") + "/" + FileName(["Trait" + tail][0]) == "/" + "Trait" + tail + ".php"
  {
    assert ("Trait" + tail)[..5] == "Trait";
  }

  /** A local name starting with a lower-case `trait` gets the `class-` prefix. */
  lemma LowerCaseTraitFile(tail: string)
    ensures Join(["trait" + tail][..0], "/") + "/" + FileName(["trait" + tail][0])
         == "/" + "class-" + "trait" + tail + ".php"
  {
    var name := "trait" + tail;
    assert name[0] == 't';
    ClassFileName(name);
    assert [name][..0] == [];
  }

  /** A local name whose first character is neither `I` nor `T` gets the `class-` prefix. */
  lemma ClassFileName(name: string)
    requires name != [] && name[0] != 'I' && name[0] != 'T'
    ensures FileName(name) == "class-" + name + ".php"
  {
    FirstCharDiffers(name, "Interface");
    FirstCharDiffers(name, "Trait");
  }

  lemma PathNormalized()
    ensures Normalize("Sub_A" + "/" + "class-" + "My_B" + ".php") == "sub-a" + "/" + "class-" + "my-b" + ".php"
  {
    NormalizeFive("Sub_A", "/", "class-", "My_B", ".php", "sub-a", "/", "class-", "my-b", ".php");
  }

  lemma TraitNormalized()
    ensures Normalize("/" + "Trait" + "_A" + ".php") == "/" + "trait" + "-a" + ".php"
  {
    NormalizeFour("/", "Trait", "_A", ".php", "/", "trait", "-a", ".php");
  }

  lemma LowerCaseTraitNormalized()
    ensures Normalize("/" + "class-" + "trait" + "_a" + ".php") == "/" + "class-" + "trait" + "-a" + ".php"
  {
    NormalizeFive("/", "class-", "trait", "_a", ".php", "/", "class-", "trait", "-a", ".php");
  }

  lemma RepeatedNormalized()
    ensures Normalize("Lib" + "/" + "class-" + "W" + ".php") == "lib" + "/" + "class-" + "w" + ".php"
  {
    NormalizeFive("Lib", "/", "class-", "W", ".php", "lib", "/", "class-", "w", ".php");
  }

  lemma RepeatedIntendedNormalized()
    ensures Normalize(("Lib" + "/") + "Ns" + "/" + ("class-" + "W") + ".php")
         == ("lib" + "/") + "ns" + "/" + ("class-" + "w") + ".php"
  {
    NormalizeFive("Lib" + "/", "Ns", "/", "class-" + "W", ".php", "lib" + "/", "ns", "/", "class-" + "w", ".php");
  }

  lemma NormalizesTo(raw: string, expected: string)
    requires |raw| == |expected|
    requires forall i :: 0 <= i < |raw| ==> NormalChar(raw[i]) == expected[i]
    ensures Normalize(raw) == expected
  {
    NormalizeIsMap(raw);
  }

  lemma NormalizeThree(a: string, b: string, c: string, a': string, b': string, c': string)
    requires |a| == |a'| && forall i :: 0 <= i < |a| ==> NormalChar(a[i]) == a'[i]
    requires |b| == |b'| && forall i :: 0 <= i < |b| ==> NormalChar(b[i]) == b'[i]
    requires |c| == |c'| && forall i :: 0 <= i < |c| ==> NormalChar(c[i]) == c'[i]
    ensures Normalize(a + b + c) == a' + b' + c'
  {
    NormalizeConcat(a + b, c);
    NormalizeConcat(a, b);
    NormalizesTo(a, a');
    NormalizesTo(b, b');
    NormalizesTo(c, c');
  }

  lemma NormalizeFour(a: string, b: string, c: string, d: string, a': string, b': string, c': string, d': string)
    requires |a| == |a'| && forall i :: 0 <= i < |a| ==> NormalChar(a[i]) == a'[i]
    requires |b| == |b'| && forall i :: 0 <= i < |b| ==> NormalChar(b[i]) == b'[i]
    requires |c| == |c'| && forall i :: 0 <= i < |c| ==> NormalChar(c[i]) == c'[i]
    requires |d| == |d'| && forall i :: 0 <= i < |d| ==> NormalChar(d[i]) == d'[i]
    ensures Normalize(a + b + c + d) == a' + b' + c' + d'
  {
    NormalizeThree(a, b, c, a', b', c');
    NormalizeConcat(a + b + c, d);
    NormalizesTo(d, d');
  }

  lemma NormalizeFive(a: string, b: string, c: string, d: string, e: string,
                      a': string, b': string, c': string, d': string, e': string)
    requires |a| == |a'| && forall i :: 0 <= i < |a| ==> NormalChar(a[i]) == a'[i]
    requires |b| == |b'| && forall i :: 0 <= i < |b| ==> NormalChar(b[i]) == b'[i]
    requires |c| == |c'| && forall i :: 0 <= i < |c| ==> NormalChar(c[i]) == c'[i]
    requires |d| == |d'| && forall i :: 0 <= i < |d| ==> NormalChar(d[i]) == d'[i]
    requires |e| == |e'| && forall i :: 0 <= i < |e| ==> NormalChar(e[i]) == e'[i]
    ensures Normalize(a + b + c + d + e) == a' + b' + c' + d' + e'
  {
    NormalizeFour(a, b, c, d, a', b', c', d');
    NormalizeConcat(a + b + c + d, e);
    NormalizesTo(e, e');
  }
}
