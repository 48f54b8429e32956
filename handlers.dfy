/**
 * The legacy handler table of handlers.js and the two string filters its
 * handlers apply: the download key (the last `/` segment of the pathname with
 * everything outside `[a-f0-9]` removed) and the data-URL prefix strip of an
 * upload's `contents` (the text after the last comma).
 *
 * `getHandler` is `handlers[path]` on an object literal, so a key that is not
 * one of the table's four own properties is looked up on `Object.prototype`.
 * `GetHandler` models that lookup as written; `OwnHandler` is the table the
 * code evidently intends, with the four own keys only.
 */
module Handlers {
  import opened Wrappers
  import opened Splitting
  import opened Router
  import Headers

  datatype Handler = ServeHome | ServeUpload | ServeStatic | ServeDownload | Builtin(name: string)

  /** The own properties of the `handlers` object literal. */
  const TABLE_KEYS: set<string> := {"home", "upload", "static", "d"}

  /** The function-valued properties every object inherits from `Object.prototype`. */
  const PROTOTYPE_METHODS: set<string> := {
    "constructor", "hasOwnProperty", "isPrototypeOf", "propertyIsEnumerable",
    "toLocaleString", "toString", "valueOf",
    "__defineGetter__", "__defineSetter__", "__lookupGetter__", "__lookupSetter__"
  }

  /** The inherited accessor whose value is `Object.prototype` itself, an object but not a function. */
  const PROTO_ACCESSOR := "__proto__"

  /** The table as intended: the four own keys and nothing else. */
  function OwnHandler(key: string): (e: Entry<Handler>)
    ensures e.Callable? <==> key in TABLE_KEYS
    ensures !e.Callable? ==> e.Missing?
    ensures e.Callable? ==> !e.handler.Builtin?
  {
    if key == "home" then Callable(ServeHome)
    else if key == "upload" then Callable(ServeUpload)
    else if key == "static" then Callable(ServeStatic)
    else if key == "d" then Callable(ServeDownload)
    else Missing
  }

  /** `getHandler(path)` as written: `handlers[path]`, which falls back on `Object.prototype`. */
  function GetHandler(key: string): (e: Entry<Handler>)
    ensures key in TABLE_KEYS ==> e == OwnHandler(key)
    ensures e.Callable? <==> key in TABLE_KEYS || key in PROTOTYPE_METHODS
    ensures e.NotCallable? <==> key == PROTO_ACCESSOR
  {
    if key in TABLE_KEYS then OwnHandler(key)
    else if key in PROTOTYPE_METHODS then Callable(Builtin(key))
    else if key == PROTO_ACCESSOR then NotCallable
    else Missing
  }

  /** The lookup agrees with the table on its own keys and is undefined only off the prototype's names. */
  lemma GetHandlerMeaning(key: string)
    ensures key in TABLE_KEYS ==> GetHandler(key) == OwnHandler(key)
    ensures GetHandler(key).Missing? <==> key !in TABLE_KEYS && key !in PROTOTYPE_METHODS && key != PROTO_ACCESSOR
    ensures GetHandler(key) != OwnHandler(key) <==> key in PROTOTYPE_METHODS || key == PROTO_ACCESSOR
  {
  }

  predicate IsLowerHex(c: char)
  {
    '0' <= c <= '9' || 'a' <= c <= 'f'
  }

  /** `.replace(/[^a-f0-9]/g, '')`. */
  function KeepHex(s: string): (r: string)
    ensures |r| <= |s|
    ensures forall i :: 0 <= i < |r| ==> IsLowerHex(r[i])
  {
    if |s| == 0 then "" else (if IsLowerHex(s[0]) then [s[0]] else "") + KeepHex(s[1..])
  }

  lemma {:induction false} KeepHexIsSubsequence(s: string)
    ensures IsSubsequence(KeepHex(s), s)
    decreases |s|
  {
    if |s| > 0 {
      KeepHexIsSubsequence(s[1..]);
      if !IsLowerHex(s[0]) {
        var r := KeepHex(s[1..]);
        assert KeepHex(s) == r;
      } else {
        assert KeepHex(s) == [s[0]] + KeepHex(s[1..]);
        assert KeepHex(s)[1..] == KeepHex(s[1..]);
      }
    }
  }

  /** The filter keeps a string exactly when it is lowercase hex already. */
  lemma {:induction false} KeepHexFixedIff(s: string)
    ensures KeepHex(s) == s <==> forall i :: 0 <= i < |s| ==> IsLowerHex(s[i])
    decreases |s|
  {
    if |s| > 0 {
      KeepHexFixedIff(s[1..]);
      if IsLowerHex(s[0]) {
        assert KeepHex(s) == [s[0]] + KeepHex(s[1..]);
        assert (forall i :: 0 <= i < |s| ==> IsLowerHex(s[i])) <==>
               (forall i :: 0 <= i < |s[1..]| ==> IsLowerHex(s[1..][i])) by {
          assert forall i :: 1 <= i < |s| ==> s[i] == s[1..][i - 1];
        }
        if KeepHex(s) == s {
          assert KeepHex(s)[1..] == KeepHex(s[1..]);
        }
      }
    }
  }

  lemma KeepHexIdempotent(s: string)
    ensures KeepHex(KeepHex(s)) == KeepHex(s)
  {
    KeepHexFixedIff(KeepHex(s));
  }

  /** The filter works character by character, so it distributes over concatenation. */
  lemma {:induction false} KeepHexConcat(a: string, b: string)
    ensures KeepHex(a + b) == KeepHex(a) + KeepHex(b)
    decreases |a|
  {
    if |a| == 0 {
      assert a + b == b;
    } else {
      assert (a + b)[0] == a[0];
      assert (a + b)[1..] == a[1..] + b;
      KeepHexConcat(a[1..], b);
    }
  }

  /** The download key of `serveDownload`: the last `/` segment, filtered. */
  function DownloadKey(pathname: string): (key: string)
    ensures forall i :: 0 <= i < |key| ==> IsLowerHex(key[i])
    ensures IsSubsequence(key, LastPart(pathname, '/'))
    ensures |key| <= |pathname|
  {
    LastPartIsSuffix(pathname, '/');
    KeepHexIsSubsequence(LastPart(pathname, '/'));
    KeepHex(LastPart(pathname, '/'))
  }

  /** The key is lowercase hex only and a subsequence of the last segment, which holds no slash. */
  lemma DownloadKeyMeaning(prefix: string, segment: string)
    requires '/' !in segment
    ensures DownloadKey(prefix + "/" + segment) == KeepHex(segment)
    ensures IsSubsequence(DownloadKey(prefix + "/" + segment), segment)
    ensures forall i :: 0 <= i < |DownloadKey(prefix + "/" + segment)| ==> IsLowerHex(DownloadKey(prefix + "/" + segment)[i])
  {
    LastPartAfterLastSep(prefix, segment, '/');
    KeepHexIsSubsequence(segment);
  }

  /** Filtering a key again, or taking its download key, gives the key back. */
  lemma DownloadKeyIdempotent(pathname: string)
    ensures KeepHex(DownloadKey(pathname)) == DownloadKey(pathname)
    ensures DownloadKey(DownloadKey(pathname)) == DownloadKey(pathname)
  {
    var key := DownloadKey(pathname);
    KeepHexIdempotent(LastPart(pathname, '/'));
    LastPartWithoutSep(key, '/');
  }

  /** `file.contents.split(',').pop()`: drop a data-URL prefix such as `data:...;base64,`. */
  function StripDataUrlPrefix(contents: string): (payload: string)
    ensures ',' !in payload
    ensures |payload| <= |contents| && contents[|contents| - |payload|..] == payload
  {
    LastPartIsSuffix(contents, ',');
    LastPart(contents, ',')
  }

  /** The result is the text after the last comma; a string with no comma is unchanged. */
  lemma StripDataUrlPrefixMeaning(prefix: string, payload: string, plain: string)
    requires ',' !in payload && ',' !in plain
    ensures StripDataUrlPrefix(prefix + "," + payload) == payload
    ensures StripDataUrlPrefix(plain) == plain
  {
    LastPartAfterLastSep(prefix, payload, ',');
    LastPartWithoutSep(plain, ',');
  }

  /** The result holds no comma, is a suffix of the input, and stripping twice changes nothing more. */
  lemma StripDataUrlPrefixIsSuffix(contents: string)
    ensures ',' !in StripDataUrlPrefix(contents)
    ensures |StripDataUrlPrefix(contents)| <= |contents|
    ensures contents[|contents| - |StripDataUrlPrefix(contents)|..] == StripDataUrlPrefix(contents)
    ensures StripDataUrlPrefix(StripDataUrlPrefix(contents)) == StripDataUrlPrefix(contents)
  {
    LastPartIsSuffix(contents, ',');
    LastPartIdempotent(contents, ',');
  }

  /**
   * What a handler call sees: the files on disk, which of them
   * `fs.readFileSync` can read (a directory or a file without read permission
   * exists but makes it throw), the stored rows (md5 to original name, rows with
   * a null name left out), the upload and static directories, and whether the
   * posted body parses as an upload record.
   */
  datatype Env = Env(fileExists: string -> bool, fileReadable: string -> bool, stored: map<string, string>,
                     uploadDir: string, staticDir: string, uploadIsJson: bool)

  /** The page `serveHome` reads. */
  function HomePage(env: Env): string
  {
    env.staticDir + "/index.html"
  }

  /** The stored file a download names: `config.upload_dir + '/' + md5`. */
  function DownloadFile(env: Env, pathname: string): string
  {
    env.uploadDir + "/" + DownloadKey(pathname)
  }

  /** The row lookup and file check in `db.get`'s callback of `serveDownload`. */
  predicate DownloadFound(env: Env, pathname: string)
  {
    DownloadKey(pathname) in env.stored && env.fileExists(DownloadFile(env, pathname))
  }

  /**
   * `writeHead` accepts the stored name in `'attachment; filename=' + realFileName`
   * (the prefix is ASCII).
   */
  predicate DownloadHeaderSafe(env: Env, pathname: string)
    requires DownloadFound(env, pathname)
  {
    Headers.HeaderSafeText(env.stored[DownloadKey(pathname)])
  }

  /**
   * The callback finds the file and writes the response: `writeHead` accepts
   * the name and `readFileSync` can read the file.
   */
  predicate DownloadAnswered(env: Env, pathname: string)
  {
    DownloadFound(env, pathname) && DownloadHeaderSafe(env, pathname) && env.fileReadable(DownloadFile(env, pathname))
  }

  /**
   * The callback finds the file but `writeHead` refuses the name, or the head
   * is written and `readFileSync` cannot read the file (a directory, no read
   * permission). The throw leaves `db.get`'s callback, where nothing catches
   * it, so the process ends with the request unanswered.
   */
  predicate DownloadCallbackThrows(env: Env, pathname: string)
  {
    DownloadFound(env, pathname) &&
      (!DownloadHeaderSafe(env, pathname) || !env.fileReadable(DownloadFile(env, pathname)))
  }

  /** An inherited `Object.prototype` method called as a plain function, so `this` is undefined. */
  function BuiltinCall(name: string): (c: Call)
    ensures !c.responded
    ensures c.value == Truthy <==> name == "constructor" || name == "toString"
  {
    // `Object(response)` and `"[object Undefined]"` are truthy; the others
    // start with ToObject(this) or a method call on `this` and throw.
    if name == "constructor" || name == "toString" then Call(Truthy, false) else Call(Threw, false)
  }

  /**
   * The call of each handler as written. `serveDownload` returns what
   * `db.get` returns, the database object, so it is truthy whether or not the
   * callback later finds the row and writes the file; the file is written only
   * when the header accepts the stored name and the file can be read.
   */
  function Invoke(env: Env, h: Handler, pathname: string): (c: Call)
    ensures c.responded ==> c.value == Truthy && !h.Builtin?
    ensures c.value == Falsy <==> h == ServeStatic && !env.fileExists("." + pathname)
    ensures c.value == Threw ==> h != ServeDownload
  {
    match h
    case ServeHome => if env.fileReadable(HomePage(env)) then Call(Truthy, true) else Call(Threw, false)
    case ServeUpload => if env.uploadIsJson then Call(Truthy, true) else Call(Threw, false)
    case ServeStatic =>
      if !env.fileExists("." + pathname) then Call(Falsy, false)
      else if env.fileReadable("." + pathname) then Call(Truthy, true)
      else Call(Threw, false)
    case ServeDownload => Call(Truthy, DownloadAnswered(env, pathname))
    case Builtin(name) => BuiltinCall(name)
  }

  /** One legacy request as written: `route(getHandler, pathname, ...)`. */
  function Serve(env: Env, pathname: string): (o: Outcome)
    ensures o == NotFound <==>
      (Dir(pathname) !in TABLE_KEYS && Dir(pathname) !in PROTOTYPE_METHODS) ||
      (Dir(pathname) == "static" && !env.fileExists("." + pathname))
    ensures o == Handled(true) ==> Dir(pathname) in TABLE_KEYS
  {
    Route(GetHandler, (h: Handler, p: string) => Invoke(env, h, p), pathname)
  }

  /**
   * `serveStatic` checks the full pathname under the working directory: a
   * missing file is a 404, and one that exists but cannot be read throws out
   * of `readFileSync` after the header is written.
   */
  lemma StaticMeaning(env: Env, pathname: string)
    requires Dir(pathname) == "static"
    ensures Serve(env, pathname) ==
      if !env.fileExists("." + pathname) then NotFound
      else if env.fileReadable("." + pathname) then Handled(true)
      else Thrown
  {
  }

  /** `serveHome` answers with the page, or throws when it cannot be read. */
  lemma HomeMeaning(env: Env, pathname: string)
    requires Dir(pathname) == "home"
    ensures Serve(env, pathname) == if env.fileReadable(HomePage(env)) then Handled(true) else Thrown
  {
  }

  /** A path of one segment goes to whatever the lookup yields for that segment. */
  lemma ServeOneSegment(env: Env, segment: string)
    requires segment != "" && '/' !in segment
    ensures Serve(env, "/" + segment) ==
      if GetHandler(segment).Callable? then AfterCall(Invoke(env, GetHandler(segment).handler, "/" + segment)) else NotFound
  {
    DirSkipsLeadingSlash(segment);
    DirFirstSegment(segment, "");
  }

  /** `/constructor` is routed to the inherited `Object`: no 404 and no response. */
  lemma ConstructorPathAnswersNothing(env: Env)
    ensures Serve(env, "/" + "constructor") == Handled(false)
  {
    ServeOneSegment(env, "constructor");
  }

  /** `/valueOf` is routed to the inherited `valueOf`, which throws. */
  lemma ValueOfPathThrows(env: Env)
    ensures Serve(env, "/" + "valueOf") == Thrown
  {
    ServeOneSegment(env, "valueOf");
  }

  /** A download of an unknown key is never answered: neither a 404 nor a file. */
  lemma UnknownDownloadAnswersNothing(env: Env, key: string)
    requires forall i :: 0 <= i < |key| ==> IsLowerHex(key[i])
    requires key !in env.stored
    ensures Serve(env, "/d/" + key) == Handled(false)
  {
    assert '/' !in key by {
      forall i | 0 <= i < |key| ensures key[i] != '/' {
        assert IsLowerHex(key[i]);
      }
    }
    DownloadPathSegment(key);
    DownloadKeyMeaning("/d", key);
    KeepHexFixedIff(key);
  }

  /**
   * Every download counts as handled, and it is answered only when the row
   * and the file are found, the header accepts the stored name and the file
   * can be read; a refused name or an unreadable file throws in the callback.
   */
  lemma DownloadMeaning(env: Env, pathname: string)
    requires Dir(pathname) == "d"
    ensures Serve(env, pathname) == Handled(DownloadFound(env, pathname) && DownloadHeaderSafe(env, pathname)
                                            && env.fileReadable(DownloadFile(env, pathname)))
    ensures Serve(env, pathname) == Handled(false) <==> !DownloadFound(env, pathname) || DownloadCallbackThrows(env, pathname)
  {
  }

  /** `/d/<key>` is routed on segment `d` and ends in the key. */
  lemma DownloadPathSegment(key: string)
    requires '/' !in key
    ensures Dir("/d/" + key) == "d" && "/d/" + key == "/d" + "/" + key
  {
    assert "/d/" + key == "/" + ("d" + "/" + key);
    DirSkipsLeadingSlash("d" + "/" + key);
    DirFirstSegment("d", key);
  }

  /**
   * The calls as intended: `serveDownload` reports whether it found the file,
   * and a name `writeHead` refuses or a file `readFileSync` cannot read
   * throws out of the call itself.
   */
  function InvokeIntended(env: Env, h: Handler, pathname: string): Call
  {
    if h == ServeDownload then
      (if !DownloadFound(env, pathname) then Call(Falsy, false)
       else if DownloadAnswered(env, pathname) then Call(Truthy, true)
       else Call(Threw, false))
    else Invoke(env, h, pathname)
  }

  /** One legacy request as intended: own-key table, download result passed back. */
  function ServeIntended(env: Env, pathname: string): Outcome
  {
    Route(OwnHandler, (h: Handler, p: string) => InvokeIntended(env, h, p), pathname)
  }

  /** Any segment that is not one of the four keys is a 404. */
  lemma IntendedUnknownSegmentIsNotFound(env: Env, pathname: string)
    requires Dir(pathname) !in TABLE_KEYS
    ensures ServeIntended(env, pathname) == NotFound
  {
  }

  /**
   * A download is the file when the key is stored and on disk, the header
   * accepts its name and the file can be read, an exception when the header
   * refuses the name or the file cannot be read, and a 404 otherwise.
   */
  lemma IntendedDownloadMeaning(env: Env, pathname: string)
    requires Dir(pathname) == "d"
    ensures ServeIntended(env, pathname) ==
      if !DownloadFound(env, pathname) then NotFound
      else if DownloadHeaderSafe(env, pathname) && env.fileReadable(DownloadFile(env, pathname)) then Handled(true)
      else Thrown
  {
  }

  /**
   * Every request is answered: a handled request wrote its response, and
   * only an unparsable upload body, an unreadable page or static file, or a
   * found download whose stored name the header refuses or whose file cannot
   * be read throws.
   */
  lemma IntendedAlwaysAnswers(env: Env, pathname: string)
    ensures ServeIntended(env, pathname) != Handled(false)
    ensures ServeIntended(env, pathname) == Thrown ==>
      (Dir(pathname) == "upload" && !env.uploadIsJson)
      || (Dir(pathname) == "home" && !env.fileReadable(HomePage(env)))
      || (Dir(pathname) == "static" && env.fileExists("." + pathname) && !env.fileReadable("." + pathname))
      || (Dir(pathname) == "d" && DownloadFound(env, pathname) &&
          (!DownloadHeaderSafe(env, pathname) || !env.fileReadable(DownloadFile(env, pathname))))
  {
  }
}
