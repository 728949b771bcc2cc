/**
  filevault.py: a shared-secret server. The password travels in the `X-Password` header (or in the
  `password` field of the JSON body of `/verify-password`) and is compared directly with `-pass`.
  Listing (`GET /`) carries no credential check; uploading and downloading do.
 */
module FileVault {
  import opened Wrappers
  import opened Passwords
  import opened Extensions
  import opened Requests

  /** A request to `/`: its method, its `X-Password` header and its optional `file` part. */
  datatype Request = Request(verb: Verb, passwordHeader: Option<string>, file: Option<FilePart>)

  datatype Response =
    | Text(status: int, body: string)             // a plain-text reply with its status code
    | Listing(names: set<string>)                 // the rendered page listing the upload folder
    | Json(status: int, verdict: string)          // `{'status': verdict}` from `/verify-password`
    | Attachment(name: string, content: seq<bv8>) // `send_from_directory(..., as_attachment=True)`
    | NotFound                                    // the 404 of `send_from_directory`

  const InvalidPassword := Text(401, "Invalid password")
  const NoFilePart := Text(400, "No file part")
  const NoSelectedFile := Text(400, "No selected file")
  const Stored := Text(204, "")

  /** The lowercased `-ext` entries: `set(ext.lower() for ext in args.ext)`. */
  function LowerAll(ext: seq<string>): (s: set<string>)
    ensures forall e :: e in s ==> NoUpper(e)
    ensures forall e :: e in ext ==> Lower(e) in s
    ensures forall e :: e in s ==> exists x :: x in ext && Lower(x) == e
  {
    set x | x in ext :: Lower(x)
  }

  /**
    The configuration startup installs from `-ext` (empty when not given) and `-type`: a rule only when
    both flags are given, with its extensions lowercased; otherwise every file is allowed.
   */
  function StartupPolicy(ext: seq<string>, ruleType: Option<string>): (p: Policy)
    ensures p.allowAll <==> ext == [] || ruleType.None?
    ensures p.allowAll ==> p.rule == DefaultRule
    ensures !p.allowAll ==> p.rule.kind == ruleType && p.rule.extensions == LowerAll(ext)
  {
    if ext != [] && ruleType.Some? then Policy(false, ExtensionRule(ruleType, LowerAll(ext)))
    else Policy(true, DefaultRule)
  }

  /** Giving only one of `-ext` and `-type` leaves every file allowed. */
  lemma OneFlagAllowsAll(ext: seq<string>, ruleType: Option<string>, filename: string)
    requires ext == [] || ruleType.None?
    ensures AllowedFile(StartupPolicy(ext, ruleType), filename)
  {
  }

  /** A whitelist admits a file exactly when some `-ext` entry equals its extension up to case. */
  lemma StartupWhitelistAnyCase(ext: seq<string>, filename: string)
    requires ext != []
    ensures AllowedFile(StartupPolicy(ext, Some(Whitelist)), filename) <==>
      exists x :: x in ext && Lower(x) == Extension(filename)
  {
  }

  /** A blacklist rejects a file exactly when some `-ext` entry equals its extension up to case. */
  lemma StartupBlacklistAnyCase(ext: seq<string>, filename: string)
    requires ext != []
    ensures AllowedFile(StartupPolicy(ext, Some(Blacklist)), filename) <==>
      forall x :: x in ext ==> Lower(x) != Extension(filename)
  {
  }

  /** `-ext PDF -type whitelist` admits `report.pdf` and `report.PDF` and rejects `virus.exe`. */
  lemma StartupPdfWhitelist()
    ensures AllowedFile(StartupPolicy(["PDF"], Some(Whitelist)), "report.pdf")
    ensures AllowedFile(StartupPolicy(["PDF"], Some(Whitelist)), "report.PDF")
    ensures !AllowedFile(StartupPolicy(["PDF"], Some(Whitelist)), "virus.exe")
  {
    ExtensionOfReports();
    PdfEntryAdmits("report.pdf");
    PdfEntryAdmits("report.PDF");
    PdfEntryRejectsExe();
  }

  lemma PdfEntryAdmits(filename: string)
    requires Extension(filename) == "pdf"
    ensures AllowedFile(StartupPolicy(["PDF"], Some(Whitelist)), filename)
  {
    var ext := ["PDF"];
    LowerOfPdf();
    assert ext[0] in ext && Lower(ext[0]) == Extension(filename);
    StartupWhitelistAnyCase(ext, filename);
  }

  lemma PdfEntryRejectsExe()
    ensures !AllowedFile(StartupPolicy(["PDF"], Some(Whitelist)), "virus.exe")
  {
    var ext := ["PDF"];
    LowerOfPdf();
    ExtensionOfExe();
    assert forall x :: x in ext ==> x == "PDF";
    StartupWhitelistAnyCase(ext, "virus.exe");
  }

  /**
    The header check of `index` and `download_file`: with no configured password everything passes;
    otherwise only a header equal to the password passes, and a missing header does not.
   */
  function PasswordAccepted(configured: Option<string>, header: Option<string>): (ok: bool)
    ensures !Configured(configured) ==> ok
    ensures Configured(configured) && header.None? ==> !ok
    ensures Configured(configured) ==> (ok <==> header == Some(configured.value))
  {
    !(Configured(configured) && header != configured)
  }

  lemma PasswordAcceptedExamples()
    ensures forall h :: PasswordAccepted(None, h) && PasswordAccepted(Some(""), h)
    ensures PasswordAccepted(Some("secret"), Some("secret"))
    ensures !PasswordAccepted(Some("secret"), Some("wrong"))
    ensures !PasswordAccepted(Some("secret"), Some(""))
  {
  }

  /**
    `/verify-password`: `ok` when no password is configured or the JSON `password` field equals it,
    and `invalid` with 401 otherwise; it agrees with the header check on the same credential.
   */
  function VerifyPasswordReply(configured: Option<string>, field: Option<string>): (r: Response)
    ensures r == Json(200, "ok") || r == Json(401, "invalid")
    ensures r == Json(200, "ok") <==> PasswordAccepted(configured, field)
  {
    if !Configured(configured) then Json(200, "ok")
    else if field == configured then Json(200, "ok")
    else Json(401, "invalid")
  }

  /** The server: its startup configuration and the upload folder, as a map from name to bytes. */
  class Vault {
    const password: Option<string>
    /** `werkzeug.utils.secure_filename`, whose body is not part of this model. */
    const sanitize: string -> string
    var policy: Policy
    var files: map<string, seq<bv8>>

    /** Startup: the configuration block at the top of filevault.py, over a folder holding `existing`. */
    constructor (password: Option<string>, ext: seq<string>, ruleType: Option<string>,
                 sanitize: string -> string, existing: map<string, seq<bv8>>)
      ensures this.password == password && this.sanitize == sanitize
      ensures policy == StartupPolicy(ext, ruleType)
      ensures files == existing
    {
      this.password := password;
      this.sanitize := sanitize;
      files := existing;
      var rule := DefaultRule;
      var allowAll: bool;
      if ext != [] && ruleType.Some? {
        rule := ExtensionRule(ruleType, LowerAll(ext));
        allowAll := false;
      } else {
        allowAll := true;
      }
      policy := Policy(allowAll, rule);
    }

    /** The request gets past every check of the POST branch and its file is saved. */
    predicate Stores(req: Request)
      reads this
    {
      && req.verb == Post
      && PasswordAccepted(password, req.passwordHeader)
      && req.file.Some?
      && req.file.value.filename != ""
      && AllowedFile(policy, req.file.value.filename)
    }

    /**
      `index`: a POST is checked for the password, then for a `file` part, then for an empty filename;
      an allowed file is saved under its sanitized name and answered with 204. A disallowed file, like
      a GET, falls through to the listing page and leaves the folder as it was.
     */
    method Index(req: Request) returns (resp: Response)
      modifies this`files
      ensures req.verb == Post && !PasswordAccepted(password, req.passwordHeader) ==>
        resp == InvalidPassword
      ensures req.verb == Post && PasswordAccepted(password, req.passwordHeader) && req.file.None? ==>
        resp == NoFilePart
      ensures (req.verb == Post && PasswordAccepted(password, req.passwordHeader) && req.file.Some?
        && req.file.value.filename == "") ==> resp == NoSelectedFile
      ensures Stores(req) ==>
        resp == Stored && files == old(files)[sanitize(req.file.value.filename) := req.file.value.content]
      ensures !Stores(req) ==> files == old(files)
      ensures (req.verb == Get || (req.file.Some? && req.file.value.filename != ""
        && PasswordAccepted(password, req.passwordHeader) && !AllowedFile(policy, req.file.value.filename)))
        ==> resp == Listing(files.Keys)
    {
      if req.verb == Post {
        if Configured(password) && req.passwordHeader != password {
          return InvalidPassword;
        }
        if req.file.None? {
          return NoFilePart;
        }
        var file := req.file.value;
        if file.filename == "" {
          return NoSelectedFile;
        }
        if AllowedFile(policy, file.filename) {
          var name := sanitize(file.filename);
          files := files[name := file.content];
          return Stored;
        }
      }
      resp := Listing(files.Keys);
    }

    /**
      `download_file`: the same header check as uploading, then the file under that name if the
      folder holds one, and 404 otherwise.
     */
    function Download(name: string, header: Option<string>): (resp: Response)
      reads this
      ensures resp == InvalidPassword <==> !PasswordAccepted(password, header)
      ensures resp.Attachment? <==> PasswordAccepted(password, header) && name in files
      ensures resp.Attachment? ==> resp.name == name && resp.content == files[name]
      ensures resp.NotFound? <==> PasswordAccepted(password, header) && name !in files
    {
      if Configured(password) && header != password then InvalidPassword
      else if name in files then Attachment(name, files[name])
      else NotFound
    }
  }

  /** An accepted upload can be downloaded again, byte for byte, under its sanitized name. */
  method UploadThenDownload(v: Vault, header: Option<string>, part: FilePart)
    requires PasswordAccepted(v.password, header) && part.filename != ""
    requires AllowedFile(v.policy, part.filename)
    modifies v
    ensures v.Download(v.sanitize(part.filename), header) == Attachment(v.sanitize(part.filename), part.content)
  {
    var resp := v.Index(Request(Post, header, Some(part)));
    assert resp == Stored;
  }

  /** A second upload under the same name replaces the first: one entry, holding the later bytes. */
  method UploadTwice(v: Vault, header: Option<string>, first: FilePart, second: FilePart)
    requires PasswordAccepted(v.password, header)
    requires first.filename == second.filename != "" && AllowedFile(v.policy, first.filename)
    modifies v
    ensures v.files.Keys == old(v.files.Keys) + {v.sanitize(first.filename)}
    ensures v.files[v.sanitize(first.filename)] == second.content
  {
    var r1 := v.Index(Request(Post, header, Some(first)));
    var r2 := v.Index(Request(Post, header, Some(second)));
  }

  /** Without the password nothing is written and 401 comes back, whatever the request carries. */
  method RejectedUploadLeavesFolder(v: Vault, header: Option<string>, file: Option<FilePart>)
    requires !PasswordAccepted(v.password, header)
    modifies v
    ensures v.files == old(v.files)
  {
    var resp := v.Index(Request(Post, header, file));
    assert resp == InvalidPassword;
  }
}
