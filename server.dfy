/**
  server.py: the basic-auth server. Every route sits behind HTTP basic authentication, whose callback
  ignores the username and checks the password against a hash made once at startup. Upload outcomes
  are reported as a message on the listing page rather than as status codes.
 */
module Server {
  import opened Wrappers
  import opened Passwords
  import opened Extensions
  import opened Requests

  /** The username and password of the `Authorization` header, as handed to the callback. */
  datatype Credentials = Credentials(username: string, password: string)

  datatype Request = Request(verb: Verb, credentials: Credentials, file: Option<FilePart>)

  datatype MessageKind = Failed | Succeeded  // `'error'` and `'success'`

  /** `upload_message`: `{'type': kind, 'text': text}`. */
  datatype Message = Message(kind: MessageKind, text: string)

  datatype Response =
    | Unauthorized                                            // the 401 of `@auth.login_required`
    | Page(names: set<string>, message: Option<Message>)      // the listing page with its message
    | Attachment(name: string, content: seq<bv8>)             // `send_from_directory(..., as_attachment=True)`
    | NotFound                                                // `abort(404)`

  const NoFileSelected := Message(Failed, "No file selected")
  const TypeNotAllowed := Message(Failed, "File type not allowed")
  const Uploaded := Message(Succeeded, "File uploaded successfully")

  const ExtWithoutType := "-ext requires -type (whitelist/blacklist)"

  /**
    Startup from `-ext` (empty when not given) and `-type`: `-ext` without `-type` stops the program;
    both together install the rule with the entries exactly as given; otherwise every file is allowed.
   */
  function StartupPolicy(ext: seq<string>, ruleType: Option<string>): (r: Result<Policy, string>)
    ensures r.Failure? <==> ext != [] && ruleType.None?
    ensures r.Failure? ==> r.error == ExtWithoutType
    ensures r.Success? ==> (r.value.allowAll <==> ext == [])
    ensures r.Success? && r.value.allowAll ==> r.value.rule == DefaultRule
    ensures r.Success? && !r.value.allowAll ==> r.value.rule.kind == ruleType
    ensures r.Success? && !r.value.allowAll ==> forall e :: e in r.value.rule.extensions <==> e in ext
  {
    if ext != [] && ruleType.None? then Failure(ExtWithoutType)
    else if ext != [] && ruleType.Some? then Success(Policy(false, ExtensionRule(ruleType, set e | e in ext)))
    else Success(Policy(true, DefaultRule))
  }

  /** `-type` without `-ext` starts the server with every file allowed. */
  lemma TypeAloneAllowsAll(ruleType: Option<string>, filename: string)
    ensures StartupPolicy([], ruleType).Success?
    ensures AllowedFile(StartupPolicy([], ruleType).value, filename)
  {
  }

  /**
    Entries are not lowercased but extensions are, so an entry with an upper-case letter never takes
    part: the verdict is that of the same rule without such entries.
   */
  lemma UppercaseEntriesNeverMatch(ext: seq<string>, ruleType: string, filename: string)
    requires ext != []
    ensures AllowedFile(StartupPolicy(ext, Some(ruleType)).value, filename) ==
      AllowedFile(Policy(false, ExtensionRule(Some(ruleType), set e | e in ext && NoUpper(e))), filename)
  {
    var p := StartupPolicy(ext, Some(ruleType)).value;
    UppercaseEntriesInert(p, filename);
    assert (set e | e in p.rule.extensions && NoUpper(e)) == (set e | e in ext && NoUpper(e));
  }

  /** `-ext PDF`: a whitelist admits neither `report.pdf` nor `report.PDF`, a blacklist blocks neither. */
  lemma UppercasePdfEntry()
    ensures !AllowedFile(StartupPolicy(["PDF"], Some(Whitelist)).value, "report.pdf")
    ensures !AllowedFile(StartupPolicy(["PDF"], Some(Whitelist)).value, "report.PDF")
    ensures AllowedFile(StartupPolicy(["PDF"], Some(Blacklist)).value, "report.pdf")
    ensures AllowedFile(StartupPolicy(["PDF"], Some(Blacklist)).value, "report.PDF")
  {
    ExtensionOfReports();
    assert (set e | e in ["PDF"]) == {"PDF"};
  }

  /** The server: startup configuration, the `users` table and the upload folder. */
  class Vault {
    const password: Option<string>
    /** `werkzeug.security.check_password_hash(stored, candidate)`, whose body is not part of this model. */
    const checkHash: (string, string) -> bool
    /** `werkzeug.utils.secure_filename`, whose body is not part of this model. */
    const sanitize: string -> string
    var policy: Policy
    var users: map<string, string>
    var files: map<string, seq<bv8>>

    /** A configured password always has its hash stored under `admin`. */
    ghost predicate Valid()
      reads this
    {
      Configured(password) ==> "admin" in users
    }

    /**
      Startup: flags that stop the program never produce a server, so only a successful
      `StartupPolicy` reaches here; `generatedHash` is what `generate_password_hash` made of the password.
     */
    constructor (password: Option<string>, ext: seq<string>, ruleType: Option<string>, generatedHash: string,
                 checkHash: (string, string) -> bool, sanitize: string -> string,
                 existing: map<string, seq<bv8>>)
      requires StartupPolicy(ext, ruleType).Success?
      ensures Valid()
      ensures this.password == password && this.checkHash == checkHash && this.sanitize == sanitize
      ensures policy == StartupPolicy(ext, ruleType).value
      ensures users == if Configured(password) then map["admin" := generatedHash] else map[]
      ensures files == existing
    {
      this.password := password;
      this.checkHash := checkHash;
      this.sanitize := sanitize;
      files := existing;
      var allowAll := true;
      var rule := DefaultRule;
      if ext != [] && ruleType.Some? {
        allowAll := false;
        rule := ExtensionRule(ruleType, set e | e in ext);
      }
      policy := Policy(allowAll, rule);
      users := map[];
      new;
      if Configured(password) {
        users := users["admin" := generatedHash];
      }
    }

    /**
      The basic-auth callback: every pair passes when no password is configured; otherwise the
      verdict is the hash check of the password alone, whatever the username.
     */
    function VerifyPassword(credentials: Credentials): (ok: bool)
      requires Valid()
      reads this
      ensures !Configured(password) ==> ok
      ensures Configured(password) ==> (ok <==> checkHash(users["admin"], credentials.password))
    {
      if !Configured(password) then true
      else checkHash(users["admin"], credentials.password)
    }

    /**
      With a hash check that accepts exactly the password it was made from, the callback accepts
      exactly the configured password, under any username.
     */
    lemma VerifyPasswordExact(credentials: Credentials)
      requires Valid() && Configured(password)
      requires forall candidate :: checkHash(users["admin"], candidate) <==> candidate == password.value
      ensures VerifyPassword(credentials) <==> credentials.password == password.value
    {
    }

    /**
      `index`: a request that fails authentication gets 401 and changes nothing. A POST then reports, in
      order, a missing part or an empty filename, a disallowed type, or saves the file under its
      sanitized name; only that last branch writes. Every authenticated request gets the listing page of
      the folder as it is afterwards.
     */
    method Index(req: Request) returns (resp: Response)
      requires Valid()
      modifies this`files
      ensures Valid()
      ensures !VerifyPassword(req.credentials) ==> resp == Unauthorized && files == old(files)
      ensures VerifyPassword(req.credentials) ==> resp.Page? && resp.names == files.Keys
      ensures (VerifyPassword(req.credentials) && req.verb == Get) ==>
        resp.message == None && files == old(files)
      ensures (VerifyPassword(req.credentials) && req.verb == Post && (req.file.None? || req.file.value.filename == ""))
        ==> resp.message == Some(NoFileSelected) && files == old(files)
      ensures (VerifyPassword(req.credentials) && req.verb == Post && req.file.Some? && req.file.value.filename != ""
        && !AllowedFile(policy, req.file.value.filename)) ==> resp.message == Some(TypeNotAllowed) && files == old(files)
      ensures (VerifyPassword(req.credentials) && req.verb == Post && req.file.Some? && req.file.value.filename != ""
        && AllowedFile(policy, req.file.value.filename)) ==>
        resp.message == Some(Uploaded) && files == old(files)[sanitize(req.file.value.filename) := req.file.value.content]
    {
      if !VerifyPassword(req.credentials) {
        return Unauthorized;
      }
      var message: Option<Message> := None;
      if req.verb == Post {
        if req.file.None? {
          message := Some(NoFileSelected);
        } else {
          var file := req.file.value;
          if file.filename == "" {
            message := Some(NoFileSelected);
          } else if !AllowedFile(policy, file.filename) {
            message := Some(TypeNotAllowed);
          } else {
            files := files[sanitize(file.filename) := file.content];
            message := Some(Uploaded);
          }
        }
      }
      resp := Page(files.Keys, message);
    }

    /** `download_file`: 401 without authentication, 404 when no such file is in the folder, else its bytes. */
    function Download(name: string, credentials: Credentials): (resp: Response)
      requires Valid()
      reads this
      ensures resp == Unauthorized <==> !VerifyPassword(credentials)
      ensures resp == NotFound <==> VerifyPassword(credentials) && name !in files
      ensures resp.Attachment? ==> resp.name == name && name in files && resp.content == files[name]
      ensures resp.Unauthorized? || resp.NotFound? || resp.Attachment?
    {
      if !VerifyPassword(credentials) then Unauthorized
      else if name !in files then NotFound
      else Attachment(name, files[name])
    }
  }

  /** An accepted upload is listed at once and can be downloaded again under its sanitized name. */
  method UploadThenDownload(v: Vault, credentials: Credentials, part: FilePart)
    requires v.Valid() && v.VerifyPassword(credentials)
    requires part.filename != "" && AllowedFile(v.policy, part.filename)
    modifies v
    ensures v.Valid()
    ensures v.sanitize(part.filename) in v.files.Keys
    ensures v.Download(v.sanitize(part.filename), credentials) == Attachment(v.sanitize(part.filename), part.content)
  {
    var resp := v.Index(Request(Post, credentials, Some(part)));
    assert v.sanitize(part.filename) in resp.names;
  }
}
