/** The agent's certificate store: one atomic rename, with crashes and write errors at every other point. */
module CertStore {
  import opened Wrappers

  datatype Bundle = Bundle(certPem: string, keyPem: string, fingerprint: string)

  /** The files of the data directory. */
  datatype Name = BundleFile | NextFile | CrtFile | KeyFile | FingerprintFile

  type Files = map<Name, string>

  /** The libraries the store relies on: JSON, PEM, X.509 and private-key parsing, and hex(sha256). */
  datatype Libs = Libs(
    marshal: Bundle -> string, unmarshal: string -> Option<Bundle>,
    pemDecode: string -> Option<string>, parseCert: string -> bool,
    parsePkcs1: string -> bool, parsePkcs8: string -> bool, hexSha256: string -> string)

  datatype Error =
    | MissingField | CertNotPem | CertParse | KeyNotPem | KeyParse | FingerprintMismatch
    | BundleParse | BundleInvalid(why: Error) | TripleInvalid(why: Error) | FileMissing(name: Name) | ReadFailed(name: Name)
    | WriteFailed | RenameFailed | Crashed

  /** The checks a bundle must pass; that the key belongs to the certificate is not among them. */
  function Validate(libs: Libs, b: Bundle): Result<(), Error> {
    if b.certPem == "" || b.keyPem == "" || b.fingerprint == "" then Err(MissingField)
    else
      var cert := libs.pemDecode(b.certPem);
      if cert.None? then Err(CertNotPem)
      else if !libs.parseCert(cert.value) then Err(CertParse)
      else
        var key := libs.pemDecode(b.keyPem);
        if key.None? then Err(KeyNotPem)
        else if !libs.parsePkcs1(key.value) && !libs.parsePkcs8(key.value) then Err(KeyParse)
        else if libs.hexSha256(cert.value) != b.fingerprint then Err(FingerprintMismatch)
        else Ok(())
  }

  /** The text is a private key, of whichever certificate. */
  predicate KeyParses(libs: Libs, key: string) {
    key != "" && libs.pemDecode(key).Some?
    && (libs.parsePkcs1(libs.pemDecode(key).value) || libs.parsePkcs8(libs.pemDecode(key).value))
  }

  /** Nothing is empty, the certificate and the key parse, and the fingerprint is that of the certificate's bytes. */
  predicate Coherent(libs: Libs, b: Bundle) {
    && b.certPem != "" && b.fingerprint != "" && KeyParses(libs, b.keyPem)
    && libs.pemDecode(b.certPem).Some? && libs.parseCert(libs.pemDecode(b.certPem).value)
    && b.fingerprint == libs.hexSha256(libs.pemDecode(b.certPem).value)
  }

  /** Exactly such bundles pass. */
  lemma ValidExactly(libs: Libs, b: Bundle)
    ensures Validate(libs, b).Ok? <==> Coherent(libs, b)
  {
  }

  // ---------- loading ----------

  /** What Load makes of the contents of the bundle file. */
  function ReadBundle(libs: Libs, raw: string): Result<Bundle, Error> {
    match libs.unmarshal(raw)
    case None => Err(BundleParse)
    case Some(b) => (match Validate(libs, b) case Ok(_) => Ok(b) case Err(e) => Err(BundleInvalid(e)))
  }

  /** Reading one file; `unreadable` are the files whose reading fails for another reason than absence. */
  function Read(files: Files, unreadable: set<Name>, name: Name): Result<string, Error> {
    if name in unreadable then Err(ReadFailed(name))
    else if name !in files then Err(FileMissing(name))
    else Ok(files[name])
  }

  /** What Load makes of the three separate files. */
  function ReadTriple(libs: Libs, files: Files, unreadable: set<Name>): Result<Bundle, Error> {
    var crt, key, fp := Read(files, unreadable, CrtFile), Read(files, unreadable, KeyFile), Read(files, unreadable, FingerprintFile);
    if crt.Err? then Err(crt.error)
    else if key.Err? then Err(key.error)
    else if fp.Err? then Err(fp.error)
    else
      var b := Bundle(crt.value, key.value, fp.value);
      match Validate(libs, b) case Ok(_) => Ok(b) case Err(e) => Err(TripleInvalid(e))
  }

  /** Only a bundle that is not there sends Load to the three files. */
  function LoadedUnless(libs: Libs, files: Files, unreadable: set<Name>): Result<Bundle, Error> {
    match Read(files, unreadable, BundleFile)
    case Ok(raw) => ReadBundle(libs, raw)
    case Err(e) => if e == FileMissing(BundleFile) then ReadTriple(libs, files, unreadable) else Err(e)
  }

  /** What Load returns when every file that is there can be read. */
  function Loaded(libs: Libs, files: Files): Result<Bundle, Error> {
    LoadedUnless(libs, files, {})
  }

  // ---------- saving ----------

  /** How one mirror write ends: done, or broken off with whatever it left in the file (None: untouched). */
  datatype Mirror = Done | Torn(left: Option<string>)

  /** Where a Save stops. `torn` is what the interrupted write leaves in its file, None when it leaves the file as
      it was. Mirror writes never fail a Save; a crash among them is a row of torn mirrors. */
  datatype Fate =
    | DiesWriting(torn: Option<string>)       // crash while the staged file is written
    | WriteFails(torn: Option<string>)        // the staged write returns an error
    | DiesBeforeRename                        // crash between write and rename
    | RenameFails(removed: bool)              // the rename returns an error; the staged file is removed if possible
    | DiesMirroring(crt: Mirror, key: Mirror, fp: Mirror)
    | Completes(crt: Mirror, key: Mirror, fp: Mirror)

  function Write(files: Files, name: Name, contents: Option<string>): Files {
    if contents.Some? then files[name := contents.value] else files
  }

  function WriteMirror(files: Files, name: Name, contents: string, m: Mirror): Files {
    Write(files, name, if m.Done? then Some(contents) else m.left)
  }

  /** POSIX rename: the target takes the source's contents in one step. */
  function Rename(files: Files, from: Name, to: Name): Files
    requires from in files
  {
    (files - {from})[to := files[from]]
  }

  function Mirrored(files: Files, b: Bundle, crt: Mirror, key: Mirror, fp: Mirror): Files {
    WriteMirror(WriteMirror(WriteMirror(files, CrtFile, b.certPem, crt), KeyFile, b.keyPem, key),
                FingerprintFile, b.fingerprint, fp)
  }

  /** The directory after one Save. */
  function Saved(libs: Libs, files: Files, b: Bundle, fate: Fate): Files {
    if Validate(libs, b).Err? then files
    else
      var raw := libs.marshal(b);
      var staged := files[NextFile := raw];
      match fate
      case DiesWriting(torn) => Write(files, NextFile, torn)
      case WriteFails(torn) => Write(files, NextFile, torn)
      case DiesBeforeRename => staged
      case RenameFails(removed) => if removed then staged - {NextFile} else staged
      case DiesMirroring(crt, key, fp) => Mirrored(Rename(staged, NextFile, BundleFile), b, crt, key, fp)
      case Completes(crt, key, fp) => Mirrored(Rename(staged, NextFile, BundleFile), b, crt, key, fp)
  }

  /** The Save gets as far as its rename. */
  predicate Commits(libs: Libs, b: Bundle, fate: Fate) {
    Validate(libs, b).Ok? && (fate.DiesMirroring? || fate.Completes?)
  }

  class Store {
    var files: Files

    /** Stages, renames, mirrors. */
    method Save(libs: Libs, b: Bundle, fate: Fate) returns (r: Result<(), Error>)
      modifies this
      ensures files == Saved(libs, old(files), b, fate)
      ensures r.Ok? <==> Coherent(libs, b) && fate.Completes?
      ensures !Coherent(libs, b) ==> files == old(files)
      ensures r.Ok? ==> BundleFile in files && files[BundleFile] == libs.marshal(b)
    {
      ValidExactly(libs, b);
      var checked := Validate(libs, b);
      if checked.Err? {
        return checked;
      }
      var raw := libs.marshal(b);
      if fate.DiesWriting? || fate.WriteFails? {
        files := Write(files, NextFile, fate.torn);
        return Err(if fate.WriteFails? then WriteFailed else Crashed);
      }
      files := files[NextFile := raw];
      if fate.DiesBeforeRename? {
        return Err(Crashed);
      }
      if fate.RenameFails? {
        if fate.removed {
          files := files - {NextFile};
        }
        return Err(RenameFailed);
      }
      files := Rename(files, NextFile, BundleFile);
      files := WriteMirror(files, CrtFile, b.certPem, fate.crt);
      files := WriteMirror(files, KeyFile, b.keyPem, fate.key);
      files := WriteMirror(files, FingerprintFile, b.fingerprint, fate.fp);
      return if fate.Completes? then Ok(()) else Err(Crashed);
    }

    /** Reads the bundle, or the three files when there is no bundle. */
    method Load(libs: Libs, unreadable: set<Name>) returns (r: Result<Bundle, Error>)
      ensures r == LoadedUnless(libs, files, unreadable)
      ensures r.Ok? ==>
        && libs.pemDecode(r.value.certPem).Some? && libs.parseCert(libs.pemDecode(r.value.certPem).value)
        && KeyParses(libs, r.value.keyPem)
        && r.value.fingerprint == libs.hexSha256(libs.pemDecode(r.value.certPem).value)
      ensures BundleFile in files && BundleFile !in unreadable ==>
        forall b :: r == Ok(b) <==> libs.unmarshal(files[BundleFile]) == Some(b) && Coherent(libs, b)
      ensures BundleFile !in files && unreadable == {} && CrtFile in files && KeyFile in files && FingerprintFile in files ==>
        var b := Bundle(files[CrtFile], files[KeyFile], files[FingerprintFile]);
        r.Ok? == Coherent(libs, b) && (r.Ok? ==> r.value == b)
    {
      LoadsExactly(libs, files, unreadable);
      var raw := Read(files, unreadable, BundleFile);
      if raw.Ok? {
        var parsed := libs.unmarshal(raw.value);
        if parsed.None? {
          return Err(BundleParse);
        }
        var checked := Validate(libs, parsed.value);
        if checked.Err? {
          return Err(BundleInvalid(checked.error));
        }
        return Ok(parsed.value);
      }
      if raw.error != FileMissing(BundleFile) {
        return Err(raw.error);
      }
      var crt := Read(files, unreadable, CrtFile);
      if crt.Err? {
        return Err(crt.error);
      }
      var key := Read(files, unreadable, KeyFile);
      if key.Err? {
        return Err(key.error);
      }
      var fp := Read(files, unreadable, FingerprintFile);
      if fp.Err? {
        return Err(fp.error);
      }
      var b := Bundle(crt.value, key.value, fp.value);
      var checked := Validate(libs, b);
      if checked.Err? {
        return Err(TripleInvalid(checked.error));
      }
      return Ok(b);
    }
  }

  /** What is loaded is coherent, and every coherent bundle or triple that can be read is loaded. */
  lemma LoadsExactly(libs: Libs, files: Files, unreadable: set<Name>)
    ensures var r := LoadedUnless(libs, files, unreadable);
      && (r.Ok? ==> Coherent(libs, r.value))
      && (BundleFile in files && BundleFile !in unreadable ==>
           forall b :: r == Ok(b) <==> libs.unmarshal(files[BundleFile]) == Some(b) && Coherent(libs, b))
      && (BundleFile !in files && unreadable == {} && CrtFile in files && KeyFile in files && FingerprintFile in files ==>
           var b := Bundle(files[CrtFile], files[KeyFile], files[FingerprintFile]);
           r.Ok? == Coherent(libs, b) && (r.Ok? ==> r.value == b))
  {
    if BundleFile in files && libs.unmarshal(files[BundleFile]).Some? {
      ValidExactly(libs, libs.unmarshal(files[BundleFile]).value);
    }
    if CrtFile in files && KeyFile in files && FingerprintFile in files {
      ValidExactly(libs, Bundle(files[CrtFile], files[KeyFile], files[FingerprintFile]));
    }
  }

  /** Read errors never change which bundle is loaded, only whether one is: in particular a bundle that cannot be read
      is not replaced by the three files. */
  lemma ReadErrorsOnlyFail(libs: Libs, files: Files, unreadable: set<Name>)
    ensures LoadedUnless(libs, files, unreadable).Ok? ==> LoadedUnless(libs, files, unreadable) == Loaded(libs, files)
    ensures BundleFile in unreadable ==> LoadedUnless(libs, files, unreadable) == Err(ReadFailed(BundleFile))
  {
  }

  // ---------- crash consistency ----------

  /** A Save call and how it ended. */
  datatype Attempt = Attempt(bundle: Bundle, fate: Fate)

  function AfterSaves(libs: Libs, files: Files, attempts: seq<Attempt>): Files {
    if attempts == [] then files
    else
      var last := attempts[|attempts| - 1];
      Saved(libs, AfterSaves(libs, files, attempts[..|attempts| - 1]), last.bundle, last.fate)
  }

  /** The bundle of the last Save whose rename happened. */
  function LastCommitted(libs: Libs, attempts: seq<Attempt>): Option<Bundle> {
    if attempts == [] then None
    else
      var last := attempts[|attempts| - 1];
      if Commits(libs, last.bundle, last.fate) then Some(last.bundle)
      else LastCommitted(libs, attempts[..|attempts| - 1])
  }

  /** The files Load reads are those of the last commit, or untouched. */
  lemma {:induction false} SavesAreAtomic(libs: Libs, files: Files, attempts: seq<Attempt>)
    ensures var after := AfterSaves(libs, files, attempts);
      match LastCommitted(libs, attempts)
      case Some(b) => BundleFile in after && after[BundleFile] == libs.marshal(b) && Validate(libs, b).Ok?
      case None => after - {NextFile} == files - {NextFile}
  {
    if attempts != [] {
      var last, init := attempts[|attempts| - 1], attempts[..|attempts| - 1];
      var before := AfterSaves(libs, files, init);
      SavesAreAtomic(libs, files, init);
      OneSave(libs, before, last.bundle, last.fate);
    }
  }

  lemma OneSave(libs: Libs, files: Files, b: Bundle, fate: Fate)
    ensures var after := Saved(libs, files, b, fate);
      if Commits(libs, b, fate) then BundleFile in after && after[BundleFile] == libs.marshal(b)
      else
        && after - {NextFile} == files - {NextFile}
        && (BundleFile in after <==> BundleFile in files)
        && (BundleFile in files ==> after[BundleFile] == files[BundleFile])
  {
    var after := Saved(libs, files, b, fate);
    if !Commits(libs, b, fate) {
      forall n | n != NextFile
        ensures (n in after <==> n in files) && (n in files ==> after[n] == files[n])
      {
      }
    }
  }

  /** After any sequence of Saves, each ending at any point, Load returns the bundle of the last Save whose rename
      happened, provided that bundle survives marshalling; with no such Save it returns what it returned before. */
  lemma {:induction false} CrashConsistency(libs: Libs, files: Files, attempts: seq<Attempt>)
    ensures match LastCommitted(libs, attempts)
      case Some(b) => Loaded(libs, AfterSaves(libs, files, attempts)) == Ok(b) <==> libs.unmarshal(libs.marshal(b)) == Some(b)
      case None => Loaded(libs, AfterSaves(libs, files, attempts)) == Loaded(libs, files)
  {
    SavesAreAtomic(libs, files, attempts);
    if LastCommitted(libs, attempts).None? {
      StagedFileIsIgnored(libs, AfterSaves(libs, files, attempts), files);
    }
  }

  lemma StagedFileIsIgnored(libs: Libs, a: Files, b: Files)
    requires a - {NextFile} == b - {NextFile}
    ensures Loaded(libs, a) == Loaded(libs, b)
  {
    forall n | n != NextFile
      ensures (n in a <==> n in b) && (n in a ==> a[n] == b[n])
    {
      assert n in a <==> n in a - {NextFile};
      assert n in b <==> n in b - {NextFile};
      assert n in a ==> a[n] == (a - {NextFile})[n];
      assert n in b ==> b[n] == (b - {NextFile})[n];
    }
  }

  /** The three mirror files of a Save that wrote them all load as its bundle, should the bundle file be lost. */
  lemma MirrorsLoad(libs: Libs, files: Files, b: Bundle)
    requires Coherent(libs, b)
    ensures var after := Saved(libs, files, b, Completes(Done, Done, Done));
      && CrtFile in after && KeyFile in after && FingerprintFile in after
      && after[CrtFile] == b.certPem && after[KeyFile] == b.keyPem && after[FingerprintFile] == b.fingerprint
      && Loaded(libs, after - {BundleFile}) == Ok(b)
  {
    ValidExactly(libs, b);
  }

  /** A Save leaves a mirror file with the new contents, with what the interrupted write left, or as it was. */
  lemma MirrorContents(libs: Libs, files: Files, b: Bundle, crt: Mirror, key: Mirror, fp: Mirror)
    requires Coherent(libs, b)
    ensures var after := Saved(libs, files, b, Completes(crt, key, fp));
      && (crt.Done? ==> CrtFile in after && after[CrtFile] == b.certPem)
      && (crt.Torn? && crt.left.Some? ==> CrtFile in after && after[CrtFile] == crt.left.value)
      && (crt.Torn? && crt.left.None? ==> (CrtFile in after <==> CrtFile in files) && (CrtFile in files ==> after[CrtFile] == files[CrtFile]))
      && (key.Done? ==> KeyFile in after && after[KeyFile] == b.keyPem)
      && (key.Torn? && key.left.Some? ==> KeyFile in after && after[KeyFile] == key.left.value)
      && (key.Torn? && key.left.None? ==> (KeyFile in after <==> KeyFile in files) && (KeyFile in files ==> after[KeyFile] == files[KeyFile]))
      && (fp.Done? ==> FingerprintFile in after && after[FingerprintFile] == b.fingerprint)
      && (fp.Torn? && fp.left.Some? ==> FingerprintFile in after && after[FingerprintFile] == fp.left.value)
      && (fp.Torn? && fp.left.None? ==>
           (FingerprintFile in after <==> FingerprintFile in files)
           && (FingerprintFile in files ==> after[FingerprintFile] == files[FingerprintFile]))
  {
    ValidExactly(libs, b);
  }

  // ---------- the key and the certificate ----------

  /** Validation does not tie the key to the certificate: in a valid bundle the key can be replaced by exactly those
      texts that parse as a private key, whether or not it is the certificate's. */
  lemma KeyIsNotMatched(libs: Libs, b: Bundle, key: string)
    requires Validate(libs, b).Ok?
    ensures Validate(libs, b.(keyPem := key)).Ok? <==> KeyParses(libs, key)
  {
  }

  lemma LoadedIsValid(libs: Libs, files: Files)
    ensures Loaded(libs, files).Ok? ==> Validate(libs, Loaded(libs, files).value).Ok?
  {
  }

  /** A Save of the bundle with a replaced key that runs to its end is what the next Load returns, exactly when the
      key parses and the bundle survives marshalling. */
  lemma ReplacedKeyIsLoaded(libs: Libs, files: Files, b: Bundle, key: string, crt: Mirror, k: Mirror, fp: Mirror)
    requires Validate(libs, b).Ok?
    ensures var c := b.(keyPem := key);
            Loaded(libs, Saved(libs, files, c, Completes(crt, k, fp))) == Ok(c)
            <==> KeyParses(libs, key) && libs.unmarshal(libs.marshal(c)) == Some(c)
  {
    var c := b.(keyPem := key);
    KeyIsNotMatched(libs, b, key);
    if Validate(libs, c).Ok? {
      OneSave(libs, files, c, Completes(crt, k, fp));
    } else {
      LoadedIsValid(libs, files);
    }
  }
}
