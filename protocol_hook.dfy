/** The `file:` protocol interceptor installed by `initializeProtocolHook`:
    what it passes to `finish` for one request, given the parsed request, the
    platform, and what the file system, the compiler host and the mime table
    answer. `finish` is called with a network error code or with a response
    `{data, mimeType}`; the callback is modelled as the sequence of those
    calls, because one branch calls `finish` twice. */
module ProtocolHook {
  import opened Strings
  import HtmlRig

  newtype byte = b: int | 0 <= b < 256

  /** `net::FAILED` and `net::ERR_FILE_NOT_FOUND`. */
  const NetFailed := -2
  const NetFileNotFound := -6

  /** The errno the source compares against for a missing file. */
  const ErrnoNotFound := 34

  datatype Payload = Bytes(bytes: seq<byte>) | Text(text: string)

  /** One argument given to `finish`. */
  datatype Finish = FailWith(code: int) | Respond(data: Payload, mimeType: string)

  /** What `fs.readFile` reports. */
  datatype ReadOutcome = ReadOk(buf: seq<byte>) | ReadError(errno: Option<int>)

  /** What `compilerHost.compile` resolves to, or the error it rejects with. */
  datatype CompileOutcome =
    | Compiled(code: string, mimeType: string)
    | CompileError(errno: Option<int>, message: string, stack: string)

  /** A request as the callback sees it: the raw URL, the host `url.parse`
      finds (None for null), and the pathname after `decodeURIComponent`
      (None when decoding throws). */
  datatype Request = Request(url: string, host: Option<string>, pathname: Option<string>)

  /** The platform, the compiler host's mode, and the three collaborators
      the callback consults, as oracles. */
  datatype Environment = Environment(
    isWin32: bool,
    readOnlyMode: bool,
    readFile: string -> ReadOutcome,
    compile: string -> CompileOutcome,
    mimeLookup: string -> Option<string>)

  const SetupPrefix := "if (window.require) require('electron-compile/lib/protocol-hook').initializeRendererProcess("

  /** The script served for the magic file: it initializes the renderer
      process with the compiler host's mode, written as a JavaScript boolean. */
  function SetupCode(readOnlyMode: bool): (code: string)
    ensures |code| > |SetupPrefix| && code[..|SetupPrefix|] == SetupPrefix
    ensures code[|SetupPrefix|..] == (if readOnlyMode then "true" else "false") + ");"
  {
    SetupPrefix + (if readOnlyMode then "true" else "false") + ");"
  }

  /** `mime.lookup(filePath) || 'text/plain'`: a missing or empty lookup
      falls back to plain text. */
  function MimeOrPlain(lookup: Option<string>): (m: string)
    ensures m != ""
    ensures lookup.Some? && lookup.value != "" ==> m == lookup.value
    ensures lookup.None? || lookup.value == "" ==> m == "text/plain"
  {
    if lookup.Some? && lookup.value != "" then lookup.value else "text/plain"
  }

  /** `requestFileJob`: the single `finish` argument for a file read. */
  function ReadResponse(path: string, outcome: ReadOutcome, mimeLookup: string -> Option<string>): (r: Finish)
    ensures r.FailWith? ==> r.code == NetFileNotFound || r.code == NetFailed
    ensures r.Respond? ==> r.data.Bytes? && r.mimeType != ""
  {
    match outcome
    case ReadError(errno) =>
      if errno == Some(ErrnoNotFound) then FailWith(NetFileNotFound) else FailWith(NetFailed)
    case ReadOk(buf) => Respond(Bytes(buf), MimeOrPlain(mimeLookup(path)))
  }

  /** The text a failed compile is answered with. */
  function CompileFailureText(path: string, message: string, stack: string): (t: string)
    ensures |"Failed to compile " + path| <= |t| && t[..|"Failed to compile " + path|] == "Failed to compile " + path
    ensures |stack| < |t| && t[|t| - |stack|..] == stack && t[|t| - |stack| - 1] == '\n'
  {
    "Failed to compile " + path + ": " + message + "\n" + stack
  }

  /** `filePath.match(/\.html?$/i)`. */
  predicate IsHtmlPath(path: string)
  {
    (|path| >= 4 && MatchesAt(path, |path| - 4, ".htm")) ||
    (|path| >= 5 && MatchesAt(path, |path| - 5, ".html"))
  }

  /** The `finish` argument of the compile branch: the `try` and the `catch`. */
  function CompileResponse(path: string, outcome: CompileOutcome): (r: Finish)
    ensures r.FailWith? ==> r.code == NetFileNotFound
    ensures r.Respond? ==> r.data.Text?
  {
    match outcome
    case Compiled(code, mimeType) =>
      Respond(Text(if IsHtmlPath(path) then HtmlRig.InjectBootstrap(code) else code), mimeType)
    case CompileError(errno, message, stack) =>
      if errno == Some(ErrnoNotFound) then FailWith(NetFileNotFound)
      else Respond(Text(CompileFailureText(path, message, stack)), "text/plain")
  }

  /** `uri.host && uri.host.length > 1`. */
  predicate IsProtocolRelative(host: Option<string>)
  {
    host.Some? && |host.value| > 1
  }

  /** `filePath.slice(1)` on win32, the path itself elsewhere. */
  function PlatformPath(decoded: string, isWin32: bool): (p: string)
    ensures !isWin32 ==> p == decoded
    ensures isWin32 ==> |p| == (if decoded == [] then 0 else |decoded| - 1)
    ensures isWin32 ==> p == decoded[|decoded| - |p|..]
  {
    if !isWin32 then decoded else if decoded == [] then [] else decoded[1..]
  }

  /** The regular expression `.` : any character but a line terminator. */
  predicate IsLineTerminator(c: char)
  {
    c == '\n' || c == '\r' || c == '\U{2028}' || c == '\U{2029}'
  }

  /** `/[\/\\]atom.asar/` (with its unescaped dot) or `/[\/\\]node_modules/`
      matches starting at the separator at `i`. */
  predicate VendoredAt(path: string, i: int)
  {
    0 <= i < |path| && (path[i] == '/' || path[i] == '\\') &&
    ((i + 10 <= |path| && path[i + 1..i + 5] == "atom" && !IsLineTerminator(path[i + 5])
        && path[i + 6..i + 10] == "asar") ||
     (i + 13 <= |path| && path[i + 1..i + 13] == "node_modules"))
  }

  /** Paths inside `atom.asar` or `node_modules` are served verbatim. */
  predicate IsVendored(path: string)
  {
    exists i | 0 <= i < |path| :: VendoredAt(path, i)
  }

  function MagicResponse(readOnlyMode: bool): Finish
  {
    Respond(Text(SetupCode(readOnlyMode)), "text/javascript")
  }

  /** The interceptor callback, as written: every `finish` argument, in order. */
  function Dispatch(req: Request, env: Environment): (calls: seq<Finish>)
    ensures |calls| <= 2
    ensures calls == [] <==>
              !HasSubstring(req.url, HtmlRig.MagicWords) && !IsProtocolRelative(req.host) && req.pathname.None?
    ensures |calls| == 2 <==>
              !HasSubstring(req.url, HtmlRig.MagicWords) && IsProtocolRelative(req.host) && req.pathname.Some?
    ensures !HasSubstring(req.url, HtmlRig.MagicWords) && IsProtocolRelative(req.host) && req.pathname.None?
            ==> calls == [FailWith(NetFailed)]
  {
    if HasSubstring(req.url, HtmlRig.MagicWords) then [MagicResponse(env.readOnlyMode)]
    else
      // The protocol-relative branch calls finish(-2) and does not return.
      var early := if IsProtocolRelative(req.host) then [FailWith(NetFailed)] else [];
      early + ResolveAndServe(req.pathname, env)
  }

  /** What the callback does from `decodeURIComponent` on: nothing further
      when decoding throws (the async callback rejects), otherwise one
      `finish` from the file read or from the compiler. */
  function ResolveAndServe(pathname: Option<string>, env: Environment): (calls: seq<Finish>)
    ensures pathname.None? ==> calls == []
    ensures pathname.Some? ==> |calls| == 1
  {
    match pathname
    case None => []
    case Some(decoded) =>
      var path := PlatformPath(decoded, env.isWin32);
      if IsVendored(path) then [ReadResponse(path, env.readFile(path), env.mimeLookup)]
      else [CompileResponse(path, env.compile(path))]
  }

  /** The callback as evidently intended: the protocol-relative branch
      returns after `finish(-2)`. */
  function DispatchFixed(req: Request, env: Environment): (calls: seq<Finish>)
    ensures |calls| <= 1
    ensures calls == [] <==>
              !HasSubstring(req.url, HtmlRig.MagicWords) && !IsProtocolRelative(req.host) && req.pathname.None?
  {
    if HasSubstring(req.url, HtmlRig.MagicWords) then [MagicResponse(env.readOnlyMode)]
    else if IsProtocolRelative(req.host) then [FailWith(NetFailed)]
    else ResolveAndServe(req.pathname, env)
  }

  /** A URL naming the magic file is answered at once with the setup script,
      whatever the file system and the compiler would say. */
  lemma MagicUrlShortCircuits(req: Request, env: Environment,
                              readFile': string -> ReadOutcome, compile': string -> CompileOutcome)
    requires HasSubstring(req.url, HtmlRig.MagicWords)
    ensures Dispatch(req, env) == [Respond(Text(SetupCode(env.readOnlyMode)), "text/javascript")]
    ensures Dispatch(req, env.(readFile := readFile', compile := compile')) == Dispatch(req, env)
  {
  }

  /** Any other request that is not protocol-relative and whose pathname
      decodes gets exactly one `finish`. */
  lemma ExactlyOneFinish(req: Request, env: Environment)
    requires !HasSubstring(req.url, HtmlRig.MagicWords)
    requires !IsProtocolRelative(req.host) && req.pathname.Some?
    ensures |Dispatch(req, env)| == 1
  {
  }

  /** As written, a protocol-relative request gets `finish(-2)` and then a
      second `finish` from the read or compile that follows. */
  lemma ProtocolRelativeFinishesTwice(req: Request, env: Environment)
    requires !HasSubstring(req.url, HtmlRig.MagicWords)
    requires IsProtocolRelative(req.host) && req.pathname.Some?
    ensures |Dispatch(req, env)| == 2
    ensures Dispatch(req, env)[0] == FailWith(NetFailed)
    ensures Dispatch(req, env)[1] == ResolveAndServe(req.pathname, env)[0]
  {
  }

  /** With the missing `return` added, every request gets at most one
      `finish` (none only when decoding the pathname throws), a
      protocol-relative one gets just `finish(-2)`, and every other request is
      answered exactly as before. */
  lemma DispatchFixedFinishesOnce(req: Request, env: Environment)
    ensures |DispatchFixed(req, env)| <= 1
    ensures req.pathname.Some? || IsProtocolRelative(req.host) || HasSubstring(req.url, HtmlRig.MagicWords)
            ==> |DispatchFixed(req, env)| == 1
    ensures !HasSubstring(req.url, HtmlRig.MagicWords) && IsProtocolRelative(req.host)
            ==> DispatchFixed(req, env) == [FailWith(NetFailed)]
    ensures !IsProtocolRelative(req.host) ==> DispatchFixed(req, env) == Dispatch(req, env)
  {
  }

  /** On win32 the first character of the decoded pathname is dropped before
      anything else looks at it. */
  lemma Win32DropsLeadingChar(req: Request, env: Environment, decoded: string)
    requires env.isWin32 && req.pathname == Some(decoded) && |decoded| >= 1
    ensures Dispatch(req, env)
            == Dispatch(req.(pathname := Some(decoded[1..])), env.(isWin32 := false))
  {
  }

  /** A vendored path is read from disk and never compiled: the last
      `finish` is the read's, and no compiler can change the answer. */
  lemma VendoredPathIsReadNotCompiled(req: Request, env: Environment, decoded: string,
                                      compile': string -> CompileOutcome)
    requires !HasSubstring(req.url, HtmlRig.MagicWords) && req.pathname == Some(decoded)
    requires IsVendored(PlatformPath(decoded, env.isWin32))
    ensures var path := PlatformPath(decoded, env.isWin32);
            var calls := Dispatch(req, env);
            |calls| >= 1 && calls[|calls| - 1] == ReadResponse(path, env.readFile(path), env.mimeLookup)
    ensures Dispatch(req, env.(compile := compile')) == Dispatch(req, env)
  {
  }

  /** Any other path is compiled and never read directly. */
  lemma OtherPathIsCompiledNotRead(req: Request, env: Environment, decoded: string,
                                   readFile': string -> ReadOutcome)
    requires !HasSubstring(req.url, HtmlRig.MagicWords) && req.pathname == Some(decoded)
    requires !IsVendored(PlatformPath(decoded, env.isWin32))
    ensures var path := PlatformPath(decoded, env.isWin32);
            var calls := Dispatch(req, env);
            |calls| >= 1 && calls[|calls| - 1] == CompileResponse(path, env.compile(path))
    ensures Dispatch(req, env.(readFile := readFile')) == Dispatch(req, env)
  {
  }

  /** `requestFileJob`: errno 34 is not-found, any other read error is a
      generic failure, and a successful read is served verbatim with the
      looked-up media type, or plain text when the lookup is missing or
      empty. */
  lemma RequestFileJobMapping(path: string, outcome: ReadOutcome, mimeLookup: string -> Option<string>)
    ensures ReadResponse(path, outcome, mimeLookup) == FailWith(NetFileNotFound)
            <==> outcome == ReadError(Some(ErrnoNotFound))
    ensures ReadResponse(path, outcome, mimeLookup) == FailWith(NetFailed)
            <==> outcome.ReadError? && outcome.errno != Some(ErrnoNotFound)
    ensures ReadResponse(path, outcome, mimeLookup).Respond? <==> outcome.ReadOk?
    ensures outcome.ReadOk? ==>
              ReadResponse(path, outcome, mimeLookup).data == Bytes(outcome.buf) &&
              ReadResponse(path, outcome, mimeLookup).mimeType != "" &&
              (mimeLookup(path).Some? && mimeLookup(path).value != "" ==>
                 ReadResponse(path, outcome, mimeLookup).mimeType == mimeLookup(path).value) &&
              (mimeLookup(path).None? || mimeLookup(path).value == "" ==>
                 ReadResponse(path, outcome, mimeLookup).mimeType == "text/plain")
  {
  }

  /** The compile branch: errno 34 is not-found; any other failure becomes
      plain-text content naming the path, the message and the stack, never a
      generic failure; a success keeps the compiler's media type and is
      rewritten exactly when the path ends in `.htm` or `.html`. */
  lemma CompileMapping(path: string, outcome: CompileOutcome)
    ensures CompileResponse(path, outcome) != FailWith(NetFailed)
    ensures CompileResponse(path, outcome) == FailWith(NetFileNotFound)
            <==> outcome.CompileError? && outcome.errno == Some(ErrnoNotFound)
    ensures outcome.CompileError? && outcome.errno != Some(ErrnoNotFound) ==>
              var r := CompileResponse(path, outcome);
              r.Respond? && r.mimeType == "text/plain" && r.data.Text? &&
              r.data.text == "Failed to compile " + path + ": " + outcome.message + "\n" + outcome.stack
    ensures outcome.Compiled? ==>
              var r := CompileResponse(path, outcome);
              r.Respond? && r.mimeType == outcome.mimeType && r.data.Text? &&
              (IsHtmlPath(path) ==> r.data.text == HtmlRig.InjectBootstrap(outcome.code)) &&
              (!IsHtmlPath(path) ==> r.data.text == outcome.code)
  {
  }

  /** Anything under a `node_modules` directory is vendored, whichever of
      the two separators precedes it. */
  lemma NodeModulesIsVendored(prefix: string, sep: char, rest: string)
    requires sep == '/' || sep == '\\'
    ensures IsVendored(prefix + [sep] + "node_modules" + rest)
  {
    var path := prefix + [sep] + "node_modules" + rest;
    assert path[|prefix|] == sep;
    assert path[|prefix| + 1..|prefix| + 13] == "node_modules";
    assert VendoredAt(path, |prefix|);
  }

  /** The dot in `atom.asar` is a regular-expression wildcard: any character
      other than a line terminator takes its place. */
  lemma AtomAsarDotIsWildcard(prefix: string, sep: char, c: char, rest: string)
    requires sep == '/' || sep == '\\'
    requires !IsLineTerminator(c)
    ensures IsVendored(prefix + [sep] + "atom" + [c] + "asar" + rest)
  {
    var path := prefix + [sep] + "atom" + [c] + "asar" + rest;
    assert path[|prefix|] == sep;
    assert path[|prefix| + 1..|prefix| + 10] == "atom" + [c] + "asar";
    assert VendoredAt(path, |prefix|);
  }

  /** `/\.html?$/i` accepts a path ending in `.htm`. */
  lemma HtmlPathAcceptsHtm(prefix: string)
    ensures IsHtmlPath(prefix + ".htm")
  {
    var path := prefix + ".htm";
    forall k | 0 <= k < 4 ensures LowerAscii(path[|path| - 4 + k]) == ".htm"[k] {
      assert path[|path| - 4 + k] == ".htm"[k];
    }
    assert MatchesAt(path, |path| - 4, ".htm");
  }

  /** `/\.html?$/i` ignores case: a path ending in `.HTML` is HTML. */
  lemma HtmlPathAcceptsUpperCase(prefix: string)
    ensures IsHtmlPath(prefix + ".HTML")
  {
    var path := prefix + ".HTML";
    forall k | 0 <= k < 5 ensures LowerAscii(path[|path| - 5 + k]) == ".html"[k] {
      assert path[|path| - 5 + k] == ".HTML"[k];
    }
    assert MatchesAt(path, |path| - 5, ".html");
  }

  /** The pattern is anchored at the end and has no `x` variant: `.xhtml`
      is not HTML, and neither is `.html` followed by one more character. */
  lemma HtmlPathRejectsOthers(prefix: string)
    ensures !IsHtmlPath(prefix + ".xhtml")
    ensures forall c: char :: !IsHtmlPath(prefix + ".html" + [c])
  {
    var x := prefix + ".xhtml";
    assert !MatchesAt(x, |x| - 4, ".htm") by { assert LowerAscii(x[|x| - 4 + 0]) != ".htm"[0]; }
    assert !MatchesAt(x, |x| - 5, ".html") by { assert LowerAscii(x[|x| - 5 + 0]) != ".html"[0]; }
    forall c: char ensures !IsHtmlPath(prefix + ".html" + [c]) {
      var q := prefix + ".html" + [c];
      assert q[|q| - 4] == 't' && q[|q| - 5] == 'h';
      assert !MatchesAt(q, |q| - 4, ".htm") by { assert LowerAscii(q[|q| - 4 + 0]) != ".htm"[0]; }
      assert !MatchesAt(q, |q| - 5, ".html") by { assert LowerAscii(q[|q| - 5 + 0]) != ".html"[0]; }
    }
  }

  /** `/\.html?$/i` is a suffix test on the lower-cased path: it ends in
      `.htm` or `.html` once ASCII letters are lower-cased. */
  lemma IsHtmlPathIff(path: string)
    ensures IsHtmlPath(path) <==>
              EndsWith(LowerString(path), ".htm") || EndsWith(LowerString(path), ".html")
  {
    SuffixIff(path, ".htm");
    SuffixIff(path, ".html");
  }

  lemma SuffixIff(path: string, suffix: string)
    ensures (|path| >= |suffix| && MatchesAt(path, |path| - |suffix|, suffix))
            <==> EndsWith(LowerString(path), suffix)
  {
    if |path| >= |suffix| { MatchesAtEndIff(path, suffix); }
  }

  /** A vendored path contains `node_modules` or `asar`. */
  lemma VendoredNeedsMarker(path: string)
    ensures IsVendored(path) ==> HasSubstring(path, "node_modules") || HasSubstring(path, "asar")
  {
    if IsVendored(path) {
      var i :| 0 <= i < |path| && VendoredAt(path, i);
      if i + 13 <= |path| && path[i + 1..i + 13] == "node_modules" {
        assert SubstringAt(path, i + 1, "node_modules");
      } else {
        assert SubstringAt(path, i + 6, "asar");
      }
    }
  }

  /** `uri.host && uri.host.length > 1`: a missing or empty host and a
      one-character host (such as a drive letter) are not protocol-relative;
      any longer host is. */
  lemma HostLengthDecides(host: string)
    ensures !IsProtocolRelative(None) && !IsProtocolRelative(Some(""))
    ensures |host| == 1 ==> !IsProtocolRelative(Some(host))
    ensures |host| >= 2 ==> IsProtocolRelative(Some(host))
  {
  }

  /** `request.url.indexOf(magicWords) > -1`: the magic name anywhere in the
      URL, in exactly this case, selects the setup script. */
  lemma MagicNameAnywhere(before: string, after: string, host: Option<string>,
                          pathname: Option<string>, env: Environment)
    ensures Dispatch(Request(before + HtmlRig.MagicWords + after, host, pathname), env)
            == [MagicResponse(env.readOnlyMode)]
  {
    SubstringOfConcat(before, HtmlRig.MagicWords, after);
  }
}
