# electron-compile protocol hook, modelled in Dafny

electron-compile intercepts Electron's `file:` protocol. Every file the
application loads goes through a compiler host and is compiled on first
access, except paths under `atom.asar` or `node_modules`, which are read
verbatim, and the magic bootstrap URL, which gets the setup script. This project models the part of `src/protocol-hook.js` that decides
what each intercepted request is answered with. It covers three things:

- **The HTML bootstrap injector** (`rigHtmlDocumentToInitializeElectronCompile`).
  It adds a `<script>` tag for the magic bootstrap file to a compiled HTML
  page. It looks for the first line containing `<head>` first. Failing that,
  it takes the first line containing `<html`, where it replaces the first
  `<html ATTRS>` if that line has one; it never looks at later lines. The model is an imperative method over an array
  of lines (`HtmlRig.RigHtmlDocument`). It is proved equal to a functional
  specification, `HtmlRig.InjectBootstrap`, and lemmas about that function
  state exactly which line changes and how.
- **The file-read mapping of `requestFileJob`**. It turns a read result into
  the argument given to `finish`.
- **The interceptor callback**. It is modelled as the pure function
  `ProtocolHook.Dispatch`, which returns the *sequence* of `finish` arguments
  for one request. It takes the request (raw URL, parsed host, decoded
  pathname), the platform, the compiler host's read-only flag, and three
  oracle functions: the file read, the compile, and the mime lookup.

Module layout:

- `strings.dfy` (module `Strings`): the JavaScript string semantics the hook
  relies on. This covers `split("\n")` and `join("\n")` with their round
  trips, `indexOf` on a literal, and regular-expression search with the `i`
  flag for the ASCII patterns the hook uses (`<head>`, `<html`, `.htm`,
  `.html`). Without the `u` flag, the `i` flag compares characters after
  upper-casing them. No character at 128 or above is ever upper-cased to an
  ASCII one, so for these patterns the match is exactly ASCII case folding.
- `html_rig.dfy` (module `HtmlRig`): the injector.
- `protocol_hook.dfy` (module `ProtocolHook`): the read mapping, the
  compile mapping and the callback.

The model follows the code; these points are easy to misread:

- The HTML test is `/\.html?$/i`. It accepts `.htm` and `.html` in any case
  and has no `x` variant (`HtmlPathRejectsOthers`).
- The win32 adjustment drops the first character of the decoded pathname,
  whatever that character is.
- The protocol-relative branch does not end the request (see Findings).
- A request whose pathname `decodeURIComponent` rejects gets no further
  `finish`: none at all unless the request is protocol-relative, which has
  already had `finish(-2)` (`Dispatch`).
- The compile branch passes the compiler's media type through unchecked.
- In `/[\/\\]atom.asar/` the dot is a regular-expression wildcard, and the
  model keeps it that way (`AtomAsarDotIsWildcard`).

## Model

| member | source | states |
|---|---|---|
| `Strings.FoldMatchIff` | src/protocol-hook.js:21 | a line character matches a pattern character that is not an ASCII capital exactly when it is that character or, for a letter, its capital: the `i` comparison for the ASCII patterns used here |
| `Strings.FindFrom` | src/protocol-hook.js:21-23 | the result is the leftmost position at or after `from` where the pattern matches case-insensitively; there is no match before it, and when it is None there is no match at all |
| `Strings.ContainsIff` | src/protocol-hook.js:21 | `line.match(/pat/i)` succeeds exactly when some position of the line matches the pattern case-insensitively |
| `Strings.SubstringOfConcat` | src/protocol-hook.js:99 | `indexOf` finds a text wherever it was put into a string |
| `Strings.Split` | src/protocol-hook.js:16 | `split("\n")` always yields at least one piece, and no piece contains a newline |
| `Strings.Join` | src/protocol-hook.js:38 | `join("\n")` starts with the first line, followed by a newline when more lines follow |
| `Strings.JoinOfSplit` | src/protocol-hook.js:16-38 | joining the split lines with `"\n"` gives back the original document |
| `Strings.SplitAfterLine` | src/protocol-hook.js:16 | a newline-free first line followed by `"\n"` splits into that line followed by the pieces of the rest |
| `Strings.SplitOfJoin` | src/protocol-hook.js:38 | splitting the join of one or more newline-free lines gives back exactly those lines |
| `Strings.JoinLengthUpdate` | src/protocol-hook.js:22-38 | replacing one line of the array before the join changes the text's length by exactly the difference between the two lines |
| `Strings.MatchesAtEndIff` | src/protocol-hook.js:133 | a case-insensitive match anchored at the end is a suffix test on the lower-cased text |
| `HtmlRig.ReplaceFirstHeadNoNewline` | src/protocol-hook.js:23 | the `<head>` replacement never introduces a newline into a line |
| `HtmlRig.ReplaceFirstHeadLength` | src/protocol-hook.js:23 | a line holding `<head>` in any case grows by exactly `\|ScriptTag\|`, the matched tag being written back in lower case; any other line comes back unchanged |
| `HtmlRig.NonGtRun` | src/protocol-hook.js:33 | the greedy `[^>]+` run: every character in it is not `>`, and it ends at the end of the line or at a `>` |
| `HtmlRig.HtmlTagAtIff` | src/protocol-hook.js:33 | the scan used by the model matches `/<html([^>]+)>/i` at a position exactly when the regular expression does, and the captured group is the maximal run of non-`>` characters |
| `HtmlRig.FindHtmlTag` | src/protocol-hook.js:33 | the result is the leftmost position where `/<html([^>]+)>/i` matches; there is no match before it, and none at all when the result is None |
| `HtmlRig.ReplaceFirstHtmlNoNewline` | src/protocol-hook.js:33 | the `<html ATTRS>` replacement never introduces a newline into a line |
| `HtmlRig.ReplaceFirstHtmlLength` | src/protocol-hook.js:33 | for `ReplaceFirstHtml` (through `ReplaceHtmlAt`), a line holding `<html ATTRS>` in any case grows by exactly `\|HtmlReplacementTail\| - 1`, the matched `<html` being written back in lower case; any other line comes back unchanged |
| `HtmlRig.FirstLineWith` | src/protocol-hook.js:20-21 | the result is the first line index whose line contains the tag case-insensitively; no earlier line contains it, and no line does when the result is None |
| `HtmlRig.ReplaceFirstHeadAt` | src/protocol-hook.js:23 | on one line, the first `<head>` in any case becomes the lower-case `<head>` plus the script tag, and the text before and after it is kept |
| `HtmlRig.ReplaceFirstHtmlAt` | src/protocol-hook.js:29-33 | on one line, the leftmost `<html ATTRS>` becomes `HtmlReplacement(ATTRS)`, that is `<html` + ATTRS verbatim + `><head><script …></script></head>`, and the text before and after it is kept |
| `HtmlRig.ReplaceHtmlAtIs` | src/protocol-hook.js:33 | replacing the match at a position puts the captured attributes, verbatim, into the template |
| `HtmlRig.ReplaceFirstHtmlNoMatch` | src/protocol-hook.js:33 | a line with no `/<html([^>]+)>/i` match is returned unchanged |
| `HtmlRig.RigHtmlDocument` | src/protocol-hook.js:15-39 | the loop over the line array, with its `break`s and the `replacedHead` flag, computes exactly `InjectBootstrap(doc)` |
| `HtmlRig.InjectGrowth` | src/protocol-hook.js:15-39 | `InjectBootstrap` never shortens the text: the output is as long as the input, or longer by the script tag (always so when some line holds `<head>`), or longer by exactly `<head><script …></script></head>` (`\|HtmlReplacementTail\| - 1`) |
| `HtmlRig.InjectPreservesLineCount` | src/protocol-hook.js:16-38 | the output has exactly as many `"\n"`-separated lines as the input |
| `HtmlRig.InjectHeadCase` | src/protocol-hook.js:20-26 | when some line contains `<head>`, only the first such line changes; its first `<head>` becomes `<head><script src="MAGIC"></script>`, and every other line is unchanged |
| `HtmlRig.InjectHtmlCase` | src/protocol-hook.js:28-35 | when no line contains `<head>`, only the first line containing `<html` changes; its first `<html ATTRS>` gets the synthetic head with ATTRS kept verbatim, and every other line is unchanged |
| `HtmlRig.InjectBareHtmlUnchanged` | src/protocol-hook.js:30-35 | when no line contains `<head>` and the first line containing `<html` has no `<html ATTRS>` with at least one attribute character, the document comes back unchanged, even if later lines have one |
| `HtmlRig.InjectNoTagsUnchanged` | src/protocol-hook.js:28-38 | a document with neither `<head>` nor `<html` comes back unchanged |
| `HtmlRig.BareHtmlFirstExample` | src/protocol-hook.js:31-33 | a page whose first line is a bare `<html>` and that has no `<head>` comes back unchanged |
| `ProtocolHook.SetupCode` | src/protocol-hook.js:93 | the setup script calls `initializeRendererProcess` and ends with the compiler host's mode spelled as the JavaScript literal `true` or `false`, followed by `);` |
| `ProtocolHook.MimeOrPlain` | src/protocol-hook.js:55 | `mime.lookup(filePath) \|\| 'text/plain'` is never empty: the lookup when it is a non-empty string, `text/plain` when it is missing or empty |
| `ProtocolHook.ReadResponse` | src/protocol-hook.js:41-57 | a file read is answered with `-6` or `-2`, or with bytes and a non-empty media type |
| `ProtocolHook.CompileFailureText` | src/protocol-hook.js:140 | the failure text starts with `Failed to compile` and the path, and ends with a newline and the stack |
| `ProtocolHook.CompileResponse` | src/protocol-hook.js:130-150 | the only failure code the compile branch gives is `-6`, and every response it gives is text |
| `ProtocolHook.PlatformPath` | src/protocol-hook.js:119-122 | elsewhere the path is the decoded pathname; on win32 it is the pathname without its first character, and empty for an empty pathname |
| `ProtocolHook.Dispatch` | src/protocol-hook.js:95-151 | the callback calls `finish` at most twice; it calls it twice exactly for a protocol-relative request that is not for the magic file and whose pathname decodes; a protocol-relative one whose pathname does not decode gets just `finish(-2)`; it never calls it for a request that is not for the magic file, not protocol-relative and whose pathname does not decode |
| `ProtocolHook.ResolveAndServe` | src/protocol-hook.js:117-137 | from `decodeURIComponent` on, one `finish` when the pathname decodes and none when decoding throws |
| `ProtocolHook.DispatchFixed` | src/protocol-hook.js:95-151 | with a `return` after `finish(-2)`, at most one `finish`, and none only for a request whose pathname does not decode |
| `ProtocolHook.MagicUrlShortCircuits` | src/protocol-hook.js:99-106 | a URL containing the magic file name gets exactly one response: the setup script with media type `text/javascript`; the file system and the compiler cannot change it |
| `ProtocolHook.MagicNameAnywhere` | src/protocol-hook.js:99-106 | the magic name anywhere in the URL, in exactly this case, selects the setup script |
| `ProtocolHook.ExactlyOneFinish` | src/protocol-hook.js:95-151 | a request that is not for the magic file, is not protocol-relative and whose pathname decodes gets exactly one `finish` |
| `ProtocolHook.HostLengthDecides` | src/protocol-hook.js:110 | `IsProtocolRelative`: a missing or empty host and a one-character host are not protocol-relative, and any longer host is |
| `ProtocolHook.ProtocolRelativeFinishesTwice` | src/protocol-hook.js:110-115 | as written, a protocol-relative request gets `finish(-2)` and then a second `finish` from the read or compile that follows |
| `ProtocolHook.DispatchFixedFinishesOnce` | src/protocol-hook.js:110-115 | with a `return` after `finish(-2)`, every request gets at most one `finish` and a protocol-relative one gets just `-2`; every other request is answered as before |
| `ProtocolHook.Win32DropsLeadingChar` | src/protocol-hook.js:119-122 | on win32 the answer is that for the decoded pathname without its first character on another platform |
| `ProtocolHook.VendoredPathIsReadNotCompiled` | src/protocol-hook.js:124-128 | a path matching `atom.asar` or `node_modules` is answered by the file-read mapping, and no compiler can change the answer |
| `ProtocolHook.OtherPathIsCompiledNotRead` | src/protocol-hook.js:130-137 | any other path is answered by the compile mapping, and the direct file read plays no part |
| `ProtocolHook.RequestFileJobMapping` | src/protocol-hook.js:41-58 | errno 34 gives `-6` and only it; any other read error gives `-2`; a successful read is served byte for byte with the looked-up media type, or `text/plain` when the lookup is missing or empty |
| `ProtocolHook.CompileMapping` | src/protocol-hook.js:130-150 | compile errno 34 gives `-6` and only it; the compile branch never gives `-2`; any other failure is served as `text/plain` text `Failed to compile <path>: <message>\n<stack>`; a success keeps the compiler's media type and is run through the HTML injector exactly when the path is an HTML path |
| `ProtocolHook.IsHtmlPathIff` | src/protocol-hook.js:133 | `IsHtmlPath` holds exactly when the path, with its ASCII letters lower-cased, ends in `.htm` or `.html` |
| `ProtocolHook.HtmlPathAcceptsHtm` | src/protocol-hook.js:133 | a path ending in `.htm` counts as HTML, since the `l` is optional |
| `ProtocolHook.HtmlPathAcceptsUpperCase` | src/protocol-hook.js:133 | a path ending in `.HTML` counts as HTML, since the test ignores case |
| `ProtocolHook.HtmlPathRejectsOthers` | src/protocol-hook.js:133 | `.xhtml` does not count as HTML, and neither does `.html` followed by one more character |
| `ProtocolHook.NodeModulesIsVendored` | src/protocol-hook.js:125 | any path containing `/node_modules` or `\node_modules` is vendored |
| `ProtocolHook.AtomAsarDotIsWildcard` | src/protocol-hook.js:125 | after either separator, the unescaped dot in `atom.asar` matches any character other than a line terminator |
| `ProtocolHook.VendoredNeedsMarker` | src/protocol-hook.js:125 | `IsVendored`/`VendoredAt`: a vendored path contains `node_modules` or `asar` |

## Left out

- `fs.readFile`, `url.parse`, `decodeURIComponent` and `mime.lookup` are library calls. The parsed host and the decoded pathname are inputs. A pathname whose decoding throws is the input None: the async callback then rejects and calls no further `finish` (a protocol-relative request has already had `finish(-2)`). The read result and the mime lookup are oracle functions in `Environment`.
- `CompilerHost.compile` and the compilation and caching engine are external. Only the outcome the callback sees is modelled: code and media type, or an error with errno, message and stack.
- The model compares errno with 34, as the source does. Which errno a given Node.js version reports for a missing file is outside the model.
- `async`/`await`, the callback form of `finish` and the `debug` logging are left out. None of them affects what `finish` receives.
- `CompileResponse`: compiled code is modelled as a string only. A compiler result made of bytes, which `new Buffer(code)` would pass through unchanged for a non-HTML path, is not represented, so "every response is text" holds of the model, not of the source.
- `Buffer` encoding is left out. A compiled or error text response carries the string that `new Buffer` would encode as UTF-8.
- JavaScript strings are sequences of UTF-16 code units, while Dafny's `char` is a Unicode scalar value. Lone surrogates are not modelled. Without the `u` flag, JavaScript sees a character outside the Basic Multilingual Plane as two code units, and the model sees it as one `char`. That changes three answers:
  - `IsVendored`/`VendoredAt`: in `/[\/\\]atom.asar/` the dot matches one code unit, so the source does not match `/x/atom😀asar/a.js` and compiles that file. The model, and `AtomAsarDotIsWildcard` with such a character, call it vendored.
  - `PlatformPath`: `filePath.slice(1)` on win32 removes one code unit, that is half of such a first character. The model removes the whole character.
  - `IsProtocolRelative`: `uri.host.length` counts such a character as two, so a host made of one of them is protocol-relative in the source and not in the model.
- `rigHtmlDocumentToInitializeElectronCompile` is only called on string code. A compiler returning a non-string for an HTML path, which would throw inside the `try`, is not modelled.
- `initializeRendererProcess` (src/protocol-hook.js:61-86) is left out. Apart from a one-shot flag, it consists of `remote.getGlobal`, compiler host factory calls and `require` hooks in another process.
- Protocol registration and the write of the root cache directory into `global` (src/protocol-hook.js:89-91, 95) are left out. They are Electron plumbing and process-wide state.

## Findings

| source | as written | input that shows it | evidently intended | confidence | as-written member | corrected member |
|---|---|---|---|---|---|---|
| src/protocol-hook.js:110-115 | `finish(-2)` has no `return`, so the callback goes on to read or compile the file and calls `finish` a second time | a request that is not for the magic file, whose parsed host has more than one character (such as `file://server/share/index.js`), and whose pathname decodes | stop after `finish(-2)`, so that each request is answered once | medium, not executed | `ProtocolHook.ProtocolRelativeFinishesTwice` | `ProtocolHook.DispatchFixedFinishesOnce` |
