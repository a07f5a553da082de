/**
 * The text transform of src/FileAutoloadComposerUpdate.php that injects the
 * namespace manifest loader into Composer's `vendor/autoload.php`. The file is
 * stripped of leading characters from the mask `<?php`; the first line that
 * reads `return X;` (the pattern `/^return (.*);$/m`, replaced at most once) is
 * replaced by a fixed block that requires the manifest loader, stores `X` in
 * `$loader` and returns it; and `<?php` plus a blank line is put back in front.
 * When no line matches, the transform fails.
 *
 * The file text and the manifest loader's file name are parameters.
 */
module ComposerInjection {
  import opened Wrappers
  import opened Text

  /** The character mask of `ltrim($autoloader, '<?php')`: a set of characters, not a prefix. */
  const OpenTagMask: set<char> := {'<', '?', 'p', 'h'}

  /**
   * The failure raised when there is no place to inject the loader. The source
   * names `RuntimeException` unqualified inside its own namespace, so PHP looks
   * for a class of that namespace that does not exist and raises a class-not-found
   * error instead; either way the request ends without writing anything.
   */
  datatype InjectError = NoReturnLine

  // ---- the pattern `/^return (.*);$/m` ----

  /** `^` in multi-line mode: the start of the text or the position just after a newline. */
  predicate LineStart(s: string, p: nat)
  {
    p <= |s| && (p == 0 || s[p - 1] == '\n')
  }

  /** Where the line holding position `p` ends: the next newline, or the end of the text (`$` in multi-line mode). */
  function LineEnd(s: string, p: nat): (e: nat)
    requires p <= |s|
    ensures p <= e <= |s| && (e == |s| || s[e] == '\n')
    ensures forall i :: p <= i < e ==> s[i] != '\n'
    decreases |s| - p
  {
    if p == |s| || s[p] == '\n' then p else LineEnd(s, p + 1)
  }

  /** The pattern matches at `p`: a line starts there and reads `return `, then any characters, then `;`. */
  predicate MatchAt(s: string, p: nat)
  {
    LineStart(s, p) && var e := LineEnd(s, p); e - p >= 8 && s[p..p + 7] == "return " && s[e - 1] == ';'
  }

  /** Some line of the text reads `return X;`. */
  predicate HasReturnLine(t: string)
  {
    exists q :: 0 <= q <= |t| && MatchAt(t, q)
  }

  /** The leftmost match at or after `from`. */
  function FirstMatch(s: string, from: nat): (r: Option<nat>)
    requires from <= |s|
    ensures r.Some? ==> from <= r.value <= |s| && MatchAt(s, r.value)
                        && forall q :: from <= q < r.value ==> !MatchAt(s, q)
    ensures r.None? ==> forall q :: from <= q <= |s| ==> !MatchAt(s, q)
    decreases |s| - from
  {
    if MatchAt(s, from) then Some(from)
    else if from == |s| then None
    else FirstMatch(s, from + 1)
  }

  // ---- the injected block ----

  const Banner: string := "/*\n  QuadLayers WP Autoload injected by quadlayers/wp-autoload\n*/\n"
  const ReturnLoader: string := "return $loader;"

  /**
   * The text the replacement callback returns for a matched line `return X;`,
   * its trailing newline included: it holds `X` and more than the 25
   * characters of `$loader = ;` and its own line `return $loader;`, so it is
   * longer than the line `return X;` it replaces.
   */
  function Injected(filename: string, x: string): (r: string)
    ensures |r| > |x| + 8 + 17
  {
    Banner + "require_once __DIR__ . '/" + filename + "';\n" + "\n" + "$loader = " + x + ";\n" + "\n" + ReturnLoader + "\n"
  }

  /**
   * `preg_replace_callback('/^return (.*);$/m', ..., $autoloader, 1, $count)`:
   * the text with its leftmost line `return X;` replaced by the injected block,
   * or nothing when `$count` stays 0.
   */
  function ReplaceFirstReturn(t: string, filename: string): (r: Option<string>)
    ensures r.None? <==> !HasReturnLine(t)
    ensures r.Some? ==> |r.value| > |t|
  {
    match FirstMatch(t, 0)
    case None => None
    case Some(p) =>
      var e := LineEnd(t, p);
      Some(t[..p] + Injected(filename, t[p + 7..e - 1]) + t[e..])
  }

  /**
   * `getContent`: the new `vendor/autoload.php`, or the error exactly when no
   * line of the text stripped of the opening-tag characters reads `return X;`.
   * A result starts with the opening tag and a blank line.
   */
  function GetContent(autoload: string, filename: string): (r: Result<string, InjectError>)
    ensures var t := LTrim(autoload, OpenTagMask);
            r.Failure? <==> !HasReturnLine(t)
    ensures r.Success? ==> StartsWith(r.value, "<?php\n\n") && |r.value| > |LTrim(autoload, OpenTagMask)| + 7
  {
    InjectInto(LTrim(autoload, OpenTagMask), filename)
  }

  /** The steps of `getContent` after `ltrim`: the replacement, the `$count` test and the new opening tag. */
  function InjectInto(t: string, filename: string): (r: Result<string, InjectError>)
    ensures r.Failure? <==> !HasReturnLine(t)
    ensures r.Success? ==> StartsWith(r.value, "<?php\n\n") && |r.value| > |t| + 7
  {
    match ReplaceFirstReturn(t, filename)
    case None => Failure(NoReturnLine)
    case Some(contents) =>
      OpenTagged(contents);
      Success("<?php\n\n" + contents)
  }

  lemma OpenTagged(c: string)
    ensures StartsWith("<?php\n\n" + c, "<?php\n\n")
  {
    assert ("<?php\n\n" + c)[..7] == "<?php\n\n";
  }

  /** `getFilePath`: `autoload.php` inside the vendor directory. */
  function GetFilePath(vendorPath: string): string
  {
    vendorPath + "/autoload.php"
  }

  // ---- what the replacement promises ----

  /** A line that ends where the next newline (or the text) does has that end. */
  lemma LineEndIs(s: string, p: nat, e: nat)
    requires p <= e <= |s| && (e == |s| || s[e] == '\n')
    requires forall i :: p <= i < e ==> s[i] != '\n'
    ensures LineEnd(s, p) == e
  {
  }

  /** A line `return X;` with `X` on one line matches. */
  lemma ReturnLineMatches(t: string, p: nat, x: string)
    requires LineStart(t, p) && p + 8 + |x| <= |t|
    requires t[p..p + 8 + |x|] == "return " + x + ";"
    requires '\n' !in x
    requires p + 8 + |x| == |t| || t[p + 8 + |x|] == '\n'
    ensures MatchAt(t, p) && LineEnd(t, p) == p + 8 + |x|
  {
    var e := p + 8 + |x|;
    forall i | p <= i < e
      ensures t[i] != '\n'
    {
      assert t[i] == t[p..e][i - p];
      if p + 7 <= i < e - 1 {
        assert t[p..e][i - p] == x[i - p - 7];
      }
    }
    LineEndIs(t, p, e);
    var line := "return " + x + ";";
    assert line[..7] == "return " && line[|line| - 1] == ';';
    assert t[p..p + 7] == t[p..e][..7];
  }

  /** A match with no match before it is the leftmost one. */
  lemma FirstMatchIs(t: string, p: nat)
    requires p <= |t| && MatchAt(t, p)
    requires forall q :: 0 <= q < p ==> !MatchAt(t, q)
    ensures FirstMatch(t, 0) == Some(p)
  {
  }

  /** The pieces of a text made of a prefix, a line `a + x + b` and a suffix. */
  lemma Pieces(t: string, pre: string, a: string, x: string, b: string, post: string)
    requires t == pre + (a + x + b) + post
    ensures var p := |pre|;
            var e := p + |a| + |x| + |b|;
            e <= |t| && t[..p] == pre && t[p..e] == a + x + b && t[e..] == post && t[p + |a|..e - |b|] == x
  {
    var p := |pre|;
    var e := p + |a| + |x| + |b|;
    assert t[..p] == pre;
    assert t[p..e] == a + x + b;
    assert t[e..] == post;
    assert (a + x + b)[|a|..|a| + |x|] == x;
    assert t[p + |a|..e - |b|] == t[p..e][|a|..|a| + |x|];
  }

  lemma ReturnPieces(t: string, pre: string, x: string, post: string)
    requires t == pre + ("return " + x + ";") + post
    ensures var p := |pre|;
            p + 8 + |x| <= |t| && t[..p] == pre && t[p..p + 8 + |x|] == "return " + x + ";"
            && t[p + 8 + |x|..] == post && t[p + 7..p + 8 + |x| - 1] == x
  {
    Pieces(t, pre, "return ", x, ";", post);
  }

  /**
   * Only the leftmost line that reads `return X;` is replaced, and the text
   * before and after that line is kept as it is.
   */
  lemma ReplaceAtFirstReturnLine(t: string, filename: string, pre: string, x: string, post: string)
    requires t == pre + ("return " + x + ";") + post
    requires pre == [] || pre[|pre| - 1] == '\n'
    requires '\n' !in x
    requires post == [] || post[0] == '\n'
    requires forall q :: 0 <= q < |pre| ==> !MatchAt(t, q)
    ensures ReplaceFirstReturn(t, filename) == Some(pre + Injected(filename, x) + post)
  {
    var p := |pre|;
    ReturnPieces(t, pre, x, post);
    ReturnLineMatches(t, p, x);
    FirstMatchIs(t, p);
    ReplacedAt(t, filename, pre, x, post, p, p + 8 + |x|);
  }

  /** The replacement at the leftmost match `p`, whose line ends at `e`, keeps what lies around that line. */
  lemma ReplacedAt(t: string, filename: string, pre: string, x: string, post: string, p: nat, e: nat)
    requires FirstMatch(t, 0) == Some(p) && LineEnd(t, p) == e && p + 8 <= e
    requires t[..p] == pre && t[p + 7..e - 1] == x && t[e..] == post
    ensures ReplaceFirstReturn(t, filename) == Some(pre + Injected(filename, x) + post)
  {
  }

  /** The injected block ends with its own line `return $loader;`, after more than `return X;` takes. */
  lemma InjectedEndsWithReturn(filename: string, x: string) returns (head: string)
    ensures Injected(filename, x) == head + ("\n" + ReturnLoader + "\n")
    ensures |head| > |x| + 8
  {
    head := Banner + "require_once __DIR__ . '/" + filename + "';\n" + "\n" + "$loader = " + x + ";\n";
  }

  /**
   * The injected block, piece by piece: the banner comment, then the line
   * requiring the manifest loader by its file name and a blank line, then
   * `$loader = X;` with `X` copied unchanged and a blank line, then the line
   * `return $loader;`. The require comes before the assignment, and both
   * before the return.
   */
  lemma InjectedLayout(filename: string, x: string) returns (i: nat, j: nat, k: nat)
    ensures var s := Injected(filename, x);
            i < j < k <= |s|
            && s[..i] == Banner
            && s[i..j] == "require_once __DIR__ . '/" + filename + "';\n" + "\n"
            && s[j..k] == "$loader = " + x + ";\n" + "\n"
            && s[k..] == ReturnLoader + "\n"
  {
    var req := "require_once __DIR__ . '/" + filename + "';\n" + "\n";
    var assign := "$loader = " + x + ";\n" + "\n";
    assert Injected(filename, x) == Banner + req + assign + (ReturnLoader + "\n");
    i, j, k := FourParts(Banner, req, assign, ReturnLoader + "\n");
  }

  /** Where the parts of a four-part concatenation lie. */
  lemma FourParts(a: string, b: string, c: string, d: string) returns (i: nat, j: nat, k: nat)
    requires b != [] && c != []
    ensures var s := a + b + c + d;
            i < j < k <= |s| && s[..i] == a && s[i..j] == b && s[j..k] == c && s[k..] == d
  {
    var s := a + b + c + d;
    i, j, k := |a|, |a| + |b|, |a| + |b| + |c|;
    assert s[..i] == a;
    assert s[i..j] == b;
    assert s[j..k] == c;
    assert s[k..] == d;
  }

  /** A replaced text holds a line `return $loader;`. */
  lemma ReplacedShape(t: string, filename: string) returns (a: string, b: string)
    requires ReplaceFirstReturn(t, filename).Some?
    ensures ReplaceFirstReturn(t, filename).value == a + ("\n" + ReturnLoader + "\n") + b
  {
    var p := FirstMatch(t, 0).value;
    var e := LineEnd(t, p);
    var x := t[p + 7..e - 1];
    assert ReplaceFirstReturn(t, filename).value == t[..p] + Injected(filename, x) + t[e..];
    var head := InjectedEndsWithReturn(filename, x);
    a := t[..p] + head;
    b := t[e..];
  }

  // ---- what the transform promises ----

  /**
   * After the opening-tag characters are stripped, only the first line that
   * reads `return X;` is replaced, and the text around it is kept.
   */
  lemma InjectAtFirstReturnLine(autoload: string, filename: string, pre: string, x: string, post: string)
    requires LTrim(autoload, OpenTagMask) == pre + ("return " + x + ";") + post
    requires pre == [] || pre[|pre| - 1] == '\n'
    requires '\n' !in x
    requires post == [] || post[0] == '\n'
    requires forall q :: 0 <= q < |pre| ==> !MatchAt(LTrim(autoload, OpenTagMask), q)
    ensures GetContent(autoload, filename) == Success("<?php\n\n" + (pre + Injected(filename, x) + post))
  {
    ReplaceAtFirstReturnLine(LTrim(autoload, OpenTagMask), filename, pre, x, post);
  }

  /** Stripping the mask from a prefix of mask characters stops at the first character outside it. */
  lemma {:induction false} LTrimPrefix(w: string, s: string, mask: set<char>)
    requires forall i :: 0 <= i < |w| ==> w[i] in mask
    requires s == [] || s[0] !in mask
    ensures LTrim(w + s, mask) == s
  {
    if w == [] {
      assert w + s == s;
    } else {
      assert (w + s)[1..] == w[1..] + s;
      LTrimPrefix(w[1..], s, mask);
    }
  }

  /** The mask is a character set: any run of `<`, `?`, `p` and `h` is stripped, not just one `<?php` tag. */
  lemma MaskStripsCharacters(s: string)
    requires s == [] || s[0] !in OpenTagMask
    ensures LTrim("<?php" + "hp?<" + s, OpenTagMask) == s
    ensures LTrim("php" + s, OpenTagMask) == s
  {
    var w := "<?php" + "hp?<";
    assert w + s == "<?php" + "hp?<" + s;
    LTrimPrefix(w, s, OpenTagMask);
    LTrimPrefix("php", s, OpenTagMask);
  }

  /**
   * The output holds a line `return $loader;`, so applying the transform to
   * its own output succeeds again and injects a second block: the transform
   * is not idempotent.
   */
  lemma ReapplyInjectsAgain(autoload: string, filename: string)
    requires GetContent(autoload, filename).Success?
    ensures var out := GetContent(autoload, filename).value;
            GetContent(out, filename).Success? && |GetContent(out, filename).value| > |out|
  {
    var t := LTrim(autoload, OpenTagMask);
    var c := ReplaceFirstReturn(t, filename).value;
    var a, b := ReplacedShape(t, filename);
    StripOpenTag(c);
    ReplaceAgain(c, filename, a, b);
  }

  /** Stripping the mask from the output removes the opening tag and keeps the blank line. */
  lemma StripOpenTag(c: string)
    ensures LTrim("<?php\n\n" + c, OpenTagMask) == "\n\n" + c
  {
    assert "<?php\n\n" + c == "<?php" + ("\n\n" + c);
    LTrimPrefix("<?php", "\n\n" + c, OpenTagMask);
  }

  /** A text holding a line `return $loader;`, after a blank line, is replaced again and grows. */
  lemma ReplaceAgain(c: string, filename: string, a: string, b: string)
    requires c == a + ("\n" + ReturnLoader + "\n") + b
    ensures ReplaceFirstReturn("\n\n" + c, filename).Some?
    ensures |ReplaceFirstReturn("\n\n" + c, filename).value| > |"\n\n" + c|
  {
    var t2 := "\n\n" + c;
    var pre := "\n\n" + a + "\n";
    assert ReturnLoader == "return " + "$loader" + ";";
    assert t2 == pre + ("return " + "$loader" + ";") + ("\n" + b);
    ReturnPieces(t2, pre, "$loader", "\n" + b);
    ReturnLineMatches(t2, |pre|, "$loader");
    var a2, b2 := ReplacedShape(t2, filename);
  }
}
