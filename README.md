# wp-autoload, modelled in Dafny

This project models the core of `quadlayers/wp-autoload`, a Composer plugin for
WordPress plugins. Its parts are:

- **The runtime autoloader** (`src/Autoloader.php`). An `Autoloader` owns one
  namespace prefix and one folder, and registers itself with PHP's autoload
  callback list when it is constructed. Asked for a class, it declines names
  outside its namespace. Otherwise it derives exactly one file path from the
  class name, in the WordPress file-naming style: the sub-namespace becomes
  directories, lower-cased, with `_` written as `-`, and the file is
  `class-<name>.php`, or `<name>.php` for names starting with `Interface` or
  `Trait`. It loads that file, or throws when the file does not exist.
- **The factory** (`src/AutoloaderFactory.php`). It builds one autoloader per
  namespace and path of a rule list, and has a registration entry point.
- **The namespace manifest** (`src/NamespaceCache.php`). This is a PHP file that
  returns the namespace => folder array, rendered with `json_encode`d keys.
- **The Composer injection** (`src/FileAutoloadComposerUpdate.php`). It is a
  text transform that rewrites `vendor/autoload.php` so that the plugin's
  loader is required before Composer's loader is returned.

Modules, one per core file plus shared helpers:

| file | module | models |
|---|---|---|
| `wrappers.dfy` | `Wrappers` | `Option` and `Result` |
| `text.dfy` | `Text` | `ltrim` with a character mask, `strpos(...) === 0`, `str_replace`, `explode`, `implode` and ASCII `strtolower`, with their laws |
| `json.dfy` | `Json` | `json_encode` of a string with PHP's default flags (section 7 of RFC 8259), and a decoder as its partner |
| `autoloader.dfy` | `ClassAutoloader` | `Autoloader.php`, with the PHP runtime as a `Host` object |
| `autoloader_examples.dfy` | `AutoloaderExamples` | worked class-name-to-path derivations |
| `autoloader_factory.dfy` | `Factory` | `AutoloaderFactory.php` |
| `namespace_cache.dfy` | `NamespaceCaching` | `NamespaceCache.php`, with the filesystem as a `Disk` object |
| `composer_update.dfy` | `ComposerInjection` | `getContent` and `getFilePath` of `FileAutoloadComposerUpdate.php` |

The PHP runtime is explicit:

- `Host` holds the ordered `spl_autoload_register` callback list, the set of
  paths `file_exists` reports and the files loaded by `require_once`.
- `Disk` maps paths to file contents.
- The contents of Composer's `vendor/autoload.php` and the loader's file name
  are parameters of the transform.

Objects the source updates in place are classes: `Host`, `Disk`, `Autoloader`
and `NamespaceCache`. The loops of `createFileContent` and `generateFromRules`
are `while` loops, each proved against a specification function
(`FileContent`, `Targets`). Path derivation and the text transform are pure
functions, as in the source.

`getFilePath` (src/FileAutoloadComposerUpdate.php:160-162) is the one-line
`ComposerInjection.GetFilePath`: the vendor directory followed by
`/autoload.php`. It is a plain definition with no property of its own.

A rule maps a namespace to its folders. Composer's configuration may give the
folders as an array or as one string (`autoload.php:25` and
`src/Plugin.php:161-162` use the string form). `Factory.Folders` keeps that
difference: the inner `foreach` of `generateFromRules` visits each folder of
an array, and visits nothing for a string, because PHP's `foreach` over a
string only warns.

## Model

| member | source | states |
|---|---|---|
| `ClassAutoloader.StoredNamespace` | src/Autoloader.php:43 | The stored namespace is never longer than the given one and never starts with a backslash. |
| `ClassAutoloader.StoredNamespaceIsLTrim` | src/Autoloader.php:43 | The stored namespace is exactly `ltrim` of the given one with the mask `\`. |
| `ClassAutoloader.Stripped` | src/Autoloader.php:76 | Definition of `str_replace($this->namespace, '', $class)`; its properties are stated by `ClassAutoloader.StrippedLeading` and `Text.RemoveKeepsChars`. |
| `ClassAutoloader.LocalName` | src/Autoloader.php:77-78 | Definition of the `array_pop`ped last segment; its property is stated by `ClassAutoloader.Segments` and `ClassAutoloader.RelativePathSegments`. |
| `ClassAutoloader.SubNamespace` | src/Autoloader.php:77-78 | Definition of the segments left after `array_pop`; its property is stated by `ClassAutoloader.RelativePathSegments`. |
| `ClassAutoloader.Normalize` | src/Autoloader.php:83 | Definition of `strtolower(str_replace(...))`; its properties are stated by `ClassAutoloader.NormalizeIsMap` and `ClassAutoloader.NormalizeConcat`. |
| `ClassAutoloader.RelativePath` | src/Autoloader.php:77-83 | Definition of the local path after the namespace is removed; its properties are stated by `ClassAutoloader.LocalPath` and `ClassAutoloader.RelativePathSegments`. |
| `ClassAutoloader.Autoloader.constructor` | src/Autoloader.php:42-47 | Stores the trimmed namespace and the folder as given, then appends itself to the autoload callbacks. |
| `ClassAutoloader.Host.Register` | src/Autoloader.php:46 | `spl_autoload_register` appends a callback unless it is already registered, so the list never gains a repeat. |
| `ClassAutoloader.Host.RequireOnce` | src/Autoloader.php:63 | `require_once` loads a path only once. |
| `ClassAutoloader.Autoloader.Autoload` | src/Autoloader.php:56-64 | A class whose name does not start with the namespace is declined with nothing loaded. Otherwise the path from `file_path` is loaded once, or `file_path`'s exception propagates. |
| `ClassAutoloader.Autoloader.FilePath` | src/Autoloader.php:75-91 | Succeeds exactly when the one derived path `folder/local path` exists, and returns it. Otherwise it fails with the class name (namespace removed) and that path. |
| `ClassAutoloader.Segments` | src/Autoloader.php:77 | `explode` never gives an empty list, so `array_pop` always has a name to take. |
| `ClassAutoloader.FileName` | src/Autoloader.php:79-81 | The file name is exactly the class name followed by `.php`, with the prefix `class-` exactly when the class name starts with neither `Interface` nor `Trait`: its length is the name's plus 4 or plus 10, and it ends with the name and `.php`. |
| `ClassAutoloader.NormalizeIsMap` | src/Autoloader.php:83 | The two `str_replace` calls plus `strtolower` map each character on its own: `\` to `/`, `_` to `-`, ASCII upper case to lower case. |
| `ClassAutoloader.NormalizeConcat` | src/Autoloader.php:83 | Normalising a concatenation normalises each side. |
| `ClassAutoloader.LocalPath` | src/Autoloader.php:76-83 | The local path holds no ASCII upper-case letter, no `_` and no `\`, and it ends with `.php`. |
| `ClassAutoloader.CandidatePath` | src/Autoloader.php:85 | The path looked for is the folder, then `/`, then a local path ending with `.php`. |
| `ClassAutoloader.RelativePathSegments` | src/Autoloader.php:77-83 | Splitting the local path at `/` gives each remaining sub-namespace segment normalised, in order, then the normalised file name. A class directly under the namespace gives one empty directory, so the path holds `//`. |
| `ClassAutoloader.LocalPathSegments` | src/Autoloader.php:76-83 | The same, for `file_path`'s local path of any class name without `/`. |
| `ClassAutoloader.SplitNormalizedJoin` | src/Autoloader.php:82-83 | `implode('/')`, normalisation, then splitting at `/` gives the parts back, each normalised, when no part holds `/` or `\`. |
| `ClassAutoloader.NormalizedHasNoSlash` | src/Autoloader.php:83 | A name with no `/` or `\` has no `/` after normalisation. |
| `ClassAutoloader.SegmentsHaveNoSlash` | src/Autoloader.php:77 | No piece of `explode('\\', ...)` holds `\`, and none holds `/` unless the name does. |
| `ClassAutoloader.StrippedLeading` | src/Autoloader.php:76 | When the namespace leads the name and does not occur again, `str_replace` removes exactly the leading copy. |
| `ClassAutoloader.IntendedPathSegments` | src/Autoloader.php:57-85 | With only the leading namespace removed, every segment after it becomes one directory of the path, in order. |
| `ClassAutoloader.IntendedAgrees` | src/Autoloader.php:57-85 | When the namespace does not occur again after its leading copy, `file_path` derives the path that prefix-only removal gives. |
| `AutoloaderExamples.ExamplePath` | src/Autoloader.php:75-85 | Namespace `Ns\`, folder `F`, class `Ns\Sub_A\My_B` gives `F/sub-a/class-my-b.php`. |
| `AutoloaderExamples.ExampleTopLevelTrait` | src/Autoloader.php:79-85 | `Ns\Trait_A` gives `F//trait-a.php`, with no `class-` prefix and an empty directory. |
| `AutoloaderExamples.ExampleLowerCaseTrait` | src/Autoloader.php:79-81 | The `Interface`/`Trait` test is case-sensitive: `Ns\trait_a` gives `F//class-trait-a.php`. |
| `AutoloaderExamples.ExampleRepeatedNamespace` | src/Autoloader.php:76 | `Ns\Lib\Ns\W` is looked for at `F/lib/class-w.php`, while prefix-only removal gives `F/lib/ns/class-w.php`. |
| `Text.LTrim` | src/FileAutoloadComposerUpdate.php:121 | `ltrim` drops a leading run of mask characters and stops at the first character outside the mask. |
| `Text.ReplaceAll` | src/Autoloader.php:76 | `str_replace` by an empty string never lengthens a string, and replacement by a string as long as the needle keeps its length. |
| `Text.Join` | src/Autoloader.php:82 | `implode` of no parts is empty. Otherwise it is as long as the parts together plus one separator between each two. |
| `Text.Lower` | src/Autoloader.php:83 | `strtolower` keeps the length, leaves no ASCII upper-case letter and changes only ASCII upper-case letters, each to the letter 32 code points higher. |
| `Text.Split` | src/Autoloader.php:77 | `explode` gives at least one piece, and no piece holds the separator. |
| `Text.JoinSplit` | src/Autoloader.php:77 | Joining the pieces of `explode` with the separator gives the string back. |
| `Text.SplitJoin` | src/Autoloader.php:82 | `explode` undoes `implode` when no part holds the separator. |
| `Text.ReplaceCharIsMap` | src/Autoloader.php:83 | `str_replace` of one character by another maps each character. |
| `Text.RemoveKeepsChars` | src/Autoloader.php:76 | Removing a needle never introduces a character. |
| `Text.ReplaceAbsent` | src/Autoloader.php:76 | `str_replace` leaves a string without the needle unchanged. |
| `Text.ReplaceLeading` | src/Autoloader.php:76 | A needle at the front is replaced, and the scan goes on after it. |
| `Text.ReplaceSkipWord` | src/Autoloader.php:76 | A word without the needle's first character is kept as it is. |
| `Text.MapJoin` | src/Autoloader.php:82-83 | A character map that keeps the separator commutes with `implode`. |
| `Text.JoinSnoc` | src/Autoloader.php:82 | `implode` of a longer list adds the separator and the new part at the end. |
| `Factory.GenerateFromRules` | src/AutoloaderFactory.php:29-37 | One loader per target of `Targets(rules)`, in order, with the trimmed namespace and the path. Each is appended to the callbacks, the loaders are pairwise distinct, and none was a callback before. |
| `Factory.Targets` | src/AutoloaderFactory.php:31-35 | There are as many targets as folders the inner `foreach` visits: the folders of array-valued rules. A string-valued rule adds none. |
| `Factory.Visited` | src/AutoloaderFactory.php:32 | Definition of what `foreach ($paths as $path)` visits: the folders of an array, nothing for a string; its property is stated by `Factory.TargetIffRule` and `Factory.StringRulesBuildNothing`. |
| `Factory.BuildRule` | src/AutoloaderFactory.php:32-34 | The inner loop: one new, registered loader per path of one rule. |
| `Factory.Build` | src/AutoloaderFactory.php:33 | `new Autoloader` appends one new callback and keeps the callbacks free of repeats. |
| `Factory.DistinctSplit` | src/AutoloaderFactory.php:33 | A repeat-free callback list splits into repeat-free parts that share nothing. The new loaders are pairwise distinct and none was registered before. |
| `Factory.TargetsAppend` | src/AutoloaderFactory.php:31-35 | The targets of consecutive rule lists follow each other. |
| `Factory.TargetIffRule` | src/AutoloaderFactory.php:31-35 | A loader is built for a namespace and folder exactly when some rule lists that folder under that namespace. |
| `Factory.RegisterFromRules` | src/AutoloaderFactory.php:45-49 | As written: every loader is built and registered, and the new callbacks are exactly one loader per target, in order. Then the call of the undefined `register` ends in a fatal error whenever there is a loader. |
| `Factory.RegisterFailsIffAnyPath` | src/AutoloaderFactory.php:45-49 | As written, registration fails exactly when some rule has a non-empty folder array. |
| `Factory.RegisterOutcome` | src/AutoloaderFactory.php:45-49 | Definition of the outcome of `registerFromRules` as written; its property is stated by `Factory.RegisterFromRules` and `Factory.RegisterFailsIffAnyPath`. |
| `Factory.OneRuleFails` | src/AutoloaderFactory.php:47 | One rule with one path already makes registration fail. |
| `Factory.StringRulesBuildNothing` | src/AutoloaderFactory.php:32 | Rules whose paths are a single string, not an array, build no loader, so registration raises no error. |
| `Factory.RegisterFromRulesIntended` | src/AutoloaderFactory.php:45-49 | With `register` as a repeat registration, the callbacks are exactly one per target, in order, and no error is raised. |
| `Json.EscapeRoundTrip` | src/NamespaceCache.php:79 | The escaped body of a JSON string unescapes to the original characters. |
| `Json.EscapeCharRoundTrip` | src/NamespaceCache.php:79 | Each escape decodes to its character and consumes exactly its own characters. |
| `Json.EncodeString` | src/NamespaceCache.php:79 | `json_encode` of a string gives a token in double quotes that decodes back to the string. |
| `Json.EscapeChar` | src/NamespaceCache.php:79 | Definition of the escape `json_encode` writes for one character; its property is stated by `Json.EscapeCharRoundTrip`. |
| `NamespaceCaching.NamespaceCache.constructor` | src/NamespaceCache.php:36-39 | Keeps the array, and sets the file path to the directory followed by `../../namespace.php` with no `/` between them. |
| `NamespaceCaching.NamespaceCache.CreateFileContent` | src/NamespaceCache.php:74-89 | The loop's result is `FileContent(namespaces)`: each pair in order, with `,\n` after a pair whose folder differs from the last entry's folder. |
| `NamespaceCaching.NamespaceCache.Create` | src/NamespaceCache.php:44-47 | Writes `<?php return [` + content + `];` to the file path and changes no other file. |
| `NamespaceCaching.NamespaceCache.Delete` | src/NamespaceCache.php:54-58 | Removes the file if it exists and changes nothing else. |
| `NamespaceCaching.Disk.Put` | src/NamespaceCache.php:46 | `file_put_contents` creates or overwrites one file. |
| `NamespaceCaching.Disk.Unlink` | src/NamespaceCache.php:56 | `unlink` removes one existing file. |
| `NamespaceCaching.EntryText` | src/NamespaceCache.php:79-81 | A pair is a text in double quotes at least six characters longer than its folder. |
| `NamespaceCaching.FileContent` | src/NamespaceCache.php:74-89 | An empty array gives empty content. Otherwise the content ends with the last pair, and is as long as the pairs plus two characters per separator written. |
| `NamespaceCaching.ManifestText` | src/NamespaceCache.php:46 | The file is `<?php return [`, then the content, then `];`. An empty array gives `<?php return [];`. |
| `NamespaceCaching.LastFolder` | src/NamespaceCache.php:76 | Definition of `end($this->namespaces)`; its property is stated by `NamespaceCaching.LastPairEnds` and `NamespaceCaching.SeparatedIffDistinctLast`. |
| `NamespaceCaching.Separator` | src/NamespaceCache.php:83-85 | Definition of the `,\n` written after a pair whose folder differs from the last; its property is stated by `NamespaceCaching.SeparatedIffDistinctLast` and `NamespaceCaching.DroppedSeparator`. |
| `NamespaceCaching.Rendered` | src/NamespaceCache.php:75-86 | Definition of the text the loop has built; its property is stated by `NamespaceCaching.RenderedLength` and `NamespaceCaching.NamespaceCache.CreateFileContent`. |
| `NamespaceCaching.LastPairEnds` | src/NamespaceCache.php:76-85 | With `$last` the last entry's folder, the content ends with the last pair and no separator after it. |
| `NamespaceCaching.EntryKey` | src/NamespaceCache.php:79-81 | Each pair is a JSON key that decodes to the namespace, then `=>`, then the folder in double quotes. |
| `NamespaceCaching.RenderedLength` | src/NamespaceCache.php:81-85 | The content is as long as the pairs plus two characters per separator written. |
| `NamespaceCaching.SeparatedIffDistinctLast` | src/NamespaceCache.php:76-85 | The content separates every two pairs with `,\n` exactly when no entry before the last shares the last entry's folder. |
| `NamespaceCaching.DistinctLastSeparated` | src/NamespaceCache.php:83-85 | If no earlier entry shares the last folder, the content is the intended `,\n`-joined list. |
| `NamespaceCaching.SharedLastDrops` | src/NamespaceCache.php:83-85 | If an earlier entry shares the last folder, the content is not the intended list. |
| `NamespaceCaching.DroppedSeparator` | src/NamespaceCache.php:83-85 | Two pairs with the same folder are written with nothing between them. |
| `NamespaceCaching.IntendedAppend` | src/NamespaceCache.php:77-85 | With the intended separators, appending an entry appends `,\n` and its pair. |
| `ComposerInjection.LineEnd` | src/FileAutoloadComposerUpdate.php:124 | `$` in multi-line mode: the line ends at the next newline or at the end of the text, with no newline before it. |
| `ComposerInjection.MatchAt` | src/FileAutoloadComposerUpdate.php:124 | Definition of the pattern `/^return (.*);$/m` matching at a position; its property is stated by `ComposerInjection.ReturnLineMatches` and `ComposerInjection.FirstMatch`. |
| `ComposerInjection.HasReturnLine` | src/FileAutoloadComposerUpdate.php:124 | Definition of some line of the text matching the pattern; its property is stated by `ComposerInjection.ReplaceFirstReturn` and `ComposerInjection.GetContent`. |
| `ComposerInjection.FirstMatch` | src/FileAutoloadComposerUpdate.php:123-142 | The leftmost position where a line reads `return X;`, or nothing when there is none. |
| `ComposerInjection.LineEndIs` | src/FileAutoloadComposerUpdate.php:124 | A line with no newline up to a newline (or the end) ends there. |
| `ComposerInjection.ReturnLineMatches` | src/FileAutoloadComposerUpdate.php:124 | A line reading `return X;`, with `X` on one line, matches the pattern. |
| `ComposerInjection.FirstMatchIs` | src/FileAutoloadComposerUpdate.php:123-142 | A match with no match before it is the one replaced. |
| `ComposerInjection.Injected` | src/FileAutoloadComposerUpdate.php:126-137 | The injected block for `X` is more than 25 characters longer than `X`, so longer than the line `return X;` it replaces. |
| `ComposerInjection.InjectedLayout` | src/FileAutoloadComposerUpdate.php:126-137 | The injected block for `X` is exactly, in this order: the banner comment; `require_once __DIR__ . '/<file name>';` and a blank line; `$loader = X;` with `X` copied unchanged and a blank line; the line `return $loader;`. |
| `ComposerInjection.ReplaceFirstReturn` | src/FileAutoloadComposerUpdate.php:123-144 | `$count` stays 0 exactly when no line reads `return X;`. A replacement makes the text longer. |
| `ComposerInjection.ReplaceAtFirstReturnLine` | src/FileAutoloadComposerUpdate.php:123-142 | Only the leftmost `return X;` line is replaced by the injected block for `X`. The text before and after it is kept. |
| `ComposerInjection.InjectedEndsWithReturn` | src/FileAutoloadComposerUpdate.php:126-137 | The injected block ends with its own line `return $loader;`, after more text than the replaced line took. |
| `ComposerInjection.ReplacedShape` | src/FileAutoloadComposerUpdate.php:123-142 | A replaced text is longer than the original and holds a line `return $loader;`. |
| `ComposerInjection.GetContent` | src/FileAutoloadComposerUpdate.php:116-152 | `getContent` throws exactly when no line of the file stripped with the mask `<?php` reads `return X;`. A result starts with `<?php` and a blank line and is longer than the stripped file. |
| `ComposerInjection.InjectInto` | src/FileAutoloadComposerUpdate.php:123-151 | The same, for a file already stripped of its opening tag. |
| `ComposerInjection.InjectAtFirstReturnLine` | src/FileAutoloadComposerUpdate.php:116-152 | After stripping, the first `return X;` line is replaced and the rest kept, behind `<?php` and a blank line. |
| `ComposerInjection.LTrimPrefix` | src/FileAutoloadComposerUpdate.php:121 | `ltrim` removes a run of mask characters and stops at the first other character. |
| `ComposerInjection.MaskStripsCharacters` | src/FileAutoloadComposerUpdate.php:121 | The mask `<?php` is a set of characters: any run of `<`, `?`, `p`, `h` is stripped, not one tag. |
| `ComposerInjection.StripOpenTag` | src/FileAutoloadComposerUpdate.php:121 | Stripping the transform's own output removes `<?php` and keeps the blank line. |
| `ComposerInjection.ReplaceAgain` | src/FileAutoloadComposerUpdate.php:123-142 | A text holding a line `return $loader;` is replaced again and grows. |
| `ComposerInjection.ReapplyInjectsAgain` | src/FileAutoloadComposerUpdate.php:116-152 | The transform is not idempotent: applied to its own output it succeeds again and injects a second block. |

## Left out

- **Plugin wiring:** `src/Plugin.php` (the Composer event plumbing and IO messages) and `autoload.php` (the bootstrap that reads the manifest) are not part of this model.
- **I/O around the transform:**
  - reading `vendor/autoload.php` (`file_get_contents`);
  - `basename` of the loader's file path;
  - writing and removing the Composer file (`FileAutoloadComposerUpdate::delete`, the filesystem object).

  The transform takes the file text and the file name as parameters.
- **Directory creation:** `NamespaceCache::createFilePath` is not modelled. `Disk` has no directories, so `Create` writes the file directly. `LOCK_EX` is not modelled.
- **Exception message:** the `sprintf` text of the not-found exception is not modelled. `NotFound` carries the two values it formats.
- **Callback dispatch:** the PHP runtime calls the registered autoload callbacks one after another. The model keeps their order in `Host.callbacks` and calls one `Autoload` at a time.
- **Manifest keys:** PHP turns integer-like string keys into integers, which `json_encode` then writes without quotes. The model takes every namespace as a string. It keeps the array as an ordered list, which also admits repeated keys that a PHP array cannot hold.
- **Evaluating the manifest:** PHP's evaluation of the written manifest is not modelled. The model states the text and where it departs from the intended list.
- **Text encoding:** characters are Dafny `char`s. `json_encode`'s rejection of invalid UTF-8 does not arise.
- **Pattern matching:** the PCRE engine in general is not modelled. Only the one pattern `/^return (.*);$/m` is, as a line predicate.
- `Factory.GenerateFromRules` builds no loader for a rule whose folder is a string, because PHP's `foreach` warns and skips a non-array. The warning is not modelled. So `Factory.RegisterFailsIffAnyPath` speaks of array-valued rules only: a configuration written entirely with string folders never reaches the fatal `register` call (`Factory.StringRulesBuildNothing`).
- **PHP 8 string semantics:**
  - `strpos` with an empty needle returns 0, so an empty (or all-backslash) namespace accepts every class. The model's `StartsWith` with an empty prefix agrees.
  - `strtolower` is taken as ASCII-only, which it is from PHP 8.2. Earlier versions follow the locale.
  - `require_once` compares resolved real paths. The model compares the path strings, so two spellings of one file count as two files.
- **The thrown exception:** `RuntimeException` in src/FileAutoloadComposerUpdate.php:145 is unqualified inside the package namespace, and no such class is declared there. PHP would raise a class-not-found `Error` instead. The model keeps one `InjectError` outcome, whatever class is thrown.
- `ComposerInjection.Injected`: its own contract states only the length. The layout of the block (banner, require line, `$loader = X;`, `return $loader;`, in that order) is stated by `ComposerInjection.InjectedLayout`.
- `Factory.GenerateFromRules` requires a repeat-free callback list. `Host.Register` keeps the list repeat-free and `Host`'s constructor starts it empty, so every `Host` the model builds meets this.

## Findings

| source | as written | input that shows it | evidently intended | confidence | as-written member | corrected member |
|---|---|---|---|---|---|---|
| src/NamespaceCache.php:83 | `,\n` is written after a pair only when its folder differs from the last entry's folder | `"A" => "x"`, `"B" => "x"` gives `"A"=>"x""B"=>"x"`, an array literal PHP cannot parse | a separator after every pair but the last | high (not executed) | `NamespaceCaching.DroppedSeparator` | `NamespaceCaching.IntendedAppend` |
| src/Autoloader.php:76 | `str_replace` removes the namespace wherever it occurs in the class name | namespace `Ns\`, class `Ns\Lib\Ns\W` is looked for at `F/lib/class-w.php` | remove only the leading namespace the guard on line 57 checked, giving `F/lib/ns/class-w.php` | medium (not executed) | `AutoloaderExamples.ExampleRepeatedNamespace` | `ClassAutoloader.IntendedPathSegments` |
| src/AutoloaderFactory.php:47 | `$autoloader->register()` calls a method `Autoloader` does not define | rules `['Ns' => ['dir']]` (a folder array) end in a fatal error | the constructor already registers each loader, so registration should finish without error | high (not executed) | `Factory.RegisterFailsIffAnyPath` | `Factory.RegisterFromRulesIntended` |

The corrected definitions are `NamespaceCaching.IntendedContent`,
`ClassAutoloader.IntendedLocalPath` and `Factory.RegisterFromRulesIntended`.
They stand beside the as-written members, which the model keeps as the
behaviour of the code.
