/**
 * routes/submissions.js: the public submit endpoint with its social-handle
 * normalisation and error mapping, and the admin endpoints that list, read,
 * delete and review submissions. `auth` and `admin` ran before every admin
 * handler; the handlers take the authenticated caller.
 */
module SubmissionRoutes {
  import opened Base
  import opened SubmissionModel
  import opened CodeGenerator
  import U = UserModel

  /** How a template literal renders an optional string. */
  function Shown(v: Option<string>): string {
    if v.Some? then v.value else "undefined"
  }

  /** `replace(/^@/, '')`: drops one leading '@'. */
  function StripAt(s: string): (r: string)
    ensures if s != [] && s[0] == '@' then s == "@" + r else r == s
  {
    if s != [] && s[0] == '@' then s[1..] else s
  }

  /**
   * The `socials` object the submit handler builds: `x` loses one leading
   * '@', `telegram` gains one when it lacks it and `discord` becomes an invite
   * link when it does not start with "http"; an absent value is rendered
   * as "undefined" inside the template.
   */
  function NormaliseSocials(s: Socials): (r: Socials)
    ensures r.x.Some? <==> s.x.Some?
    ensures s.x.Some? ==> s.x.value == r.x.value || s.x.value == "@" + r.x.value
    ensures r.telegram.Some? && StartsWith(r.telegram.value, "@")
    ensures r.discord.Some? && StartsWith(r.discord.value, "http")
    ensures s.telegram.Some? && StartsWith(s.telegram.value, "@") ==> r.telegram == s.telegram
    ensures s.discord.Some? && StartsWith(s.discord.value, "http") ==> r.discord == s.discord
    ensures r.founderTg == s.founderTg
  {
    Socials(
      MapOption(s.x, StripAt),
      Some(if s.telegram.Some? && StartsWith(s.telegram.value, "@") then s.telegram.value else "@" + Shown(s.telegram)),
      Some(if s.discord.Some? && StartsWith(s.discord.value, "http") then s.discord.value else DiscordPrefix + Shown(s.discord)),
      s.founderTg)
  }

  // ---------------------------------------------------------------------
  // Error reporting

  /** `path.split('.').pop()`: the last segment of the path. */
  function ShortName(path: seq<string>): (r: string)
    ensures path != [] ==> r == path[|path| - 1]
  {
    if path == [] then "" else path[|path| - 1]
  }

  /** The `errors` object: each error's message under its short name, later ones overwriting. */
  function ErrorMap(errs: seq<FieldError>): (m: map<string, string>)
    ensures forall i :: 0 <= i < |errs| ==> ShortName(errs[i].path) in m
    ensures errs != [] ==> m[ShortName(errs[|errs| - 1].path)] == errs[|errs| - 1].message
  {
    if errs == [] then map[]
    else
      var last := errs[|errs| - 1];
      var m := ErrorMap(errs[..|errs| - 1]);
      assert forall i :: 0 <= i < |errs| - 1 ==> errs[..|errs| - 1][i] == errs[i];
      m[ShortName(last.path) := last.message]
  }

  function Put(m: map<string, string>, key: string, failure: Option<string>): map<string, string> {
    if failure.Some? then m[key := failure.value] else m
  }

  lemma ErrorMapChecked(errs: seq<FieldError>, path: seq<string>, failure: Option<string>)
    ensures ErrorMap(Checked(errs, path, failure)) == Put(ErrorMap(errs), ShortName(path), failure)
  {
    if failure.Some? {
      assert (errs + [FieldError(path, failure.value)])[..|errs|] == errs;
    }
  }

  /** The error map of the validation errors: each failing field under its short name. */
  lemma ErrorMapOfValidation(d: SubmissionDoc, isEmail: string -> bool)
    ensures ErrorMap(ValidationErrors(d, isEmail))
      == Put(Put(Put(Put(Put(Put(Put(Put(map[],
           "founderTg", FounderTgFailure(d.socials.founderTg, d.email)),
           "projectName", ProjectNameFailure(d.projectName)),
           "description", DescriptionFailure(d.description)),
           "email", EmailFailure(d.email, isEmail)),
           "x", XFailure(d.socials.x)),
           "telegram", TelegramFailure(d.socials.telegram)),
           "discord", DiscordFailure(d.socials.discord)),
           "status", StatusFailure(d.status))
  {
    var e1 := Checked([], ["socials", "founderTg"], FounderTgFailure(d.socials.founderTg, d.email));
    var e2 := Checked(e1, ["projectName"], ProjectNameFailure(d.projectName));
    var e3 := Checked(e2, ["description"], DescriptionFailure(d.description));
    var e4 := Checked(e3, ["email"], EmailFailure(d.email, isEmail));
    var e5 := Checked(e4, ["socials", "x"], XFailure(d.socials.x));
    var e6 := Checked(e5, ["socials", "telegram"], TelegramFailure(d.socials.telegram));
    var e7 := Checked(e6, ["socials", "discord"], DiscordFailure(d.socials.discord));
    ErrorMapChecked([], ["socials", "founderTg"], FounderTgFailure(d.socials.founderTg, d.email));
    ErrorMapChecked(e1, ["projectName"], ProjectNameFailure(d.projectName));
    ErrorMapChecked(e2, ["description"], DescriptionFailure(d.description));
    ErrorMapChecked(e3, ["email"], EmailFailure(d.email, isEmail));
    ErrorMapChecked(e4, ["socials", "x"], XFailure(d.socials.x));
    ErrorMapChecked(e5, ["socials", "telegram"], TelegramFailure(d.socials.telegram));
    ErrorMapChecked(e6, ["socials", "discord"], DiscordFailure(d.socials.discord));
    ErrorMapChecked(e7, ["status"], StatusFailure(d.status));
  }

  /** Looking up the eight short names in a map built field by field. */
  lemma PutLookups(f1: Option<string>, f2: Option<string>, f3: Option<string>, f4: Option<string>,
                   f5: Option<string>, f6: Option<string>, f7: Option<string>, f8: Option<string>)
    ensures var m := Put(Put(Put(Put(Put(Put(Put(Put(map[], "founderTg", f1), "projectName", f2), "description", f3),
                       "email", f4), "x", f5), "telegram", f6), "discord", f7), "status", f8);
      && ("founderTg" in m <==> f1.Some?) && (f1.Some? ==> m["founderTg"] == f1.value)
      && ("projectName" in m <==> f2.Some?) && (f2.Some? ==> m["projectName"] == f2.value)
      && ("description" in m <==> f3.Some?) && (f3.Some? ==> m["description"] == f3.value)
      && ("email" in m <==> f4.Some?) && (f4.Some? ==> m["email"] == f4.value)
      && ("x" in m <==> f5.Some?) && (f5.Some? ==> m["x"] == f5.value)
      && ("telegram" in m <==> f6.Some?) && (f6.Some? ==> m["telegram"] == f6.value)
      && ("discord" in m <==> f7.Some?) && (f7.Some? ==> m["discord"] == f7.value)
      && ("status" in m <==> f8.Some?) && (f8.Some? ==> m["status"] == f8.value)
  {
    var m1 := Put(map[], "founderTg", f1);
    var m2 := Put(m1, "projectName", f2);
    var m3 := Put(m2, "description", f3);
    var m4 := Put(m3, "email", f4);
    var m5 := Put(m4, "x", f5);
    var m6 := Put(m5, "telegram", f6);
    var m7 := Put(m6, "discord", f7);
    PutOver4(m4, f5, f6, f7, f8, "founderTg");
    PutOver4(m4, f5, f6, f7, f8, "projectName");
    PutOver4(m4, f5, f6, f7, f8, "description");
    PutOver4(m4, f5, f6, f7, f8, "email");
    PutOver(m5, "telegram", f6, "x");
    PutOver(m6, "discord", f7, "x");
    PutOver(m7, "status", f8, "x");
    PutOver(m6, "discord", f7, "telegram");
    PutOver(m7, "status", f8, "telegram");
    PutOver(m7, "status", f8, "discord");
  }

  /** A `Put` under another key leaves a key's entry as it was. */
  lemma PutOver(m: map<string, string>, key: string, failure: Option<string>, k: string)
    requires k != key
    ensures k in Put(m, key, failure) <==> k in m
    ensures k in m ==> Put(m, key, failure)[k] == m[k]
  {
  }

  /** The last four `Put`s leave the first four short names as they were. */
  lemma PutOver4(m: map<string, string>, f5: Option<string>, f6: Option<string>, f7: Option<string>, f8: Option<string>, k: string)
    requires k !in {"x", "telegram", "discord", "status"}
    ensures var n := Put(Put(Put(Put(m, "x", f5), "telegram", f6), "discord", f7), "status", f8);
      (k in n <==> k in m) && (k in m ==> n[k] == m[k])
  {
    PutOver(m, "x", f5, k);
    PutOver(Put(m, "x", f5), "telegram", f6, k);
    PutOver(Put(Put(m, "x", f5), "telegram", f6), "discord", f7, k);
    PutOver(Put(Put(Put(m, "x", f5), "telegram", f6), "discord", f7), "status", f8, k);
  }

  /**
   * The 400 reply's `errors`: one entry per failing field under its short
   * name, holding that field's message, and nothing else.
   */
  lemma ErrorsByField(d: SubmissionDoc, isEmail: string -> bool)
    ensures var m := ErrorMap(ValidationErrors(d, isEmail));
      && ("founderTg" in m <==> FounderTgFailure(d.socials.founderTg, d.email).Some?)
      && ("founderTg" in m ==> m["founderTg"] == FounderTgFailure(d.socials.founderTg, d.email).value)
      && ("projectName" in m <==> ProjectNameFailure(d.projectName).Some?)
      && ("projectName" in m ==> m["projectName"] == ProjectNameFailure(d.projectName).value)
      && ("description" in m <==> DescriptionFailure(d.description).Some?)
      && ("description" in m ==> m["description"] == DescriptionFailure(d.description).value)
      && ("email" in m <==> EmailFailure(d.email, isEmail).Some?)
      && ("email" in m ==> m["email"] == EmailFailure(d.email, isEmail).value)
      && ("x" in m <==> XFailure(d.socials.x).Some?)
      && ("x" in m ==> m["x"] == XFailure(d.socials.x).value)
      && ("telegram" in m <==> TelegramFailure(d.socials.telegram).Some?)
      && ("telegram" in m ==> m["telegram"] == TelegramFailure(d.socials.telegram).value)
      && ("discord" in m <==> DiscordFailure(d.socials.discord).Some?)
      && ("discord" in m ==> m["discord"] == DiscordFailure(d.socials.discord).value)
      && ("status" in m <==> StatusFailure(d.status).Some?)
      && ("status" in m ==> m["status"] == StatusFailure(d.status).value)
  {
    ErrorMapOfValidation(d, isEmail);
    PutLookups(FounderTgFailure(d.socials.founderTg, d.email), ProjectNameFailure(d.projectName),
      DescriptionFailure(d.description), EmailFailure(d.email, isEmail), XFailure(d.socials.x),
      TelegramFailure(d.socials.telegram), DiscordFailure(d.socials.discord), StatusFailure(d.status));
  }

  // ---------------------------------------------------------------------
  // POST /

  /**
   * The request body: `...req.body` carries every top-level schema path the
   * client sends into the created document, and `socials` itself may be
   * missing.
   */
  datatype SubmitBody = SubmitBody(fields: SubmissionFields, socials: Option<Socials>)

  datatype SubmitReply =
    | Submitted(code: string, id: Id, submittedAt: Time)
    | SubmissionInvalid(errors: map<string, string>)
    | SubmissionExists
    | SubmitFailed
  {
    function Status(): int {
      match this
      case Submitted(_, _, _) => 201
      case SubmissionInvalid(_) => 400
      case SubmissionExists => 409
      case SubmitFailed => 500
    }
  }

  datatype SubmitStep = SubmitStep(reply: SubmitReply, docs: seq<SubmissionDoc>, nextId: Id)

  predicate ValidDraws(draws: seq<real>) {
    |draws| == CodeLength && forall i :: 0 <= i < |draws| ==> IsDraw(draws[i])
  }

  /**
   * The document `Submission.create` validates: constructed from the body
   * with its normalised `socials`, then the hook. Every path the body
   * carries is kept; `code` fills `submissionCode` only when the body has none.
   */
  function PreparedDoc(id: Id, body: SubmitBody, code: string, now: Time): (d: SubmissionDoc)
    requires body.socials.Some?
    ensures var f := body.fields;
      && d.id == id && d.submissionCode == Upper(Or(f.submissionCode, code)) && d.submittedAt == Or(f.submittedAt, now)
      && d.status == Or(f.status, "pending") && d.statusLocked == Or(f.statusLocked, false)
      && d.statusHistory == Or(f.statusHistory, []) && d.approvedBy == f.approvedBy && d.rejectedBy == f.rejectedBy
    ensures OnlyContent(body.fields) ==> Unreviewed(d)
  {
    var s := body.socials.value;
    RewriteDiscord(Construct(id, body.fields, NormaliseSocials(s), code, now))
  }

  /** What `create` answers for a prepared document and its validation errors. */
  function Decide(docs: seq<SubmissionDoc>, nextId: Id, d: SubmissionDoc, errs: seq<FieldError>): (r: SubmitStep)
    ensures !r.reply.Submitted? ==> r.docs == docs && r.nextId == nextId
  {
    if errs != [] then SubmitStep(SubmissionInvalid(ErrorMap(errs)), docs, nextId)
    else if CodeTaken(docs, d.submissionCode) then SubmitStep(SubmissionExists, docs, nextId)
    else SubmitStep(Submitted(d.submissionCode, d.id, d.submittedAt), docs + [d], nextId + 1)
  }

  /**
   * The submit handler, given the value the `submissionCode` default
   * would produce: reading `socials.x` of a missing `socials` throws (500); a
   * validation failure is 400 with the error map; a taken code is the
   * duplicate key error (409); otherwise the submission is stored.
   */
  function SubmitSpec(docs: seq<SubmissionDoc>, nextId: Id, body: SubmitBody, code: string, now: Time,
                      isEmail: string -> bool): (r: SubmitStep)
    ensures !r.reply.Submitted? ==> r.docs == docs && r.nextId == nextId
  {
    if body.socials.None? then SubmitStep(SubmitFailed, docs, nextId)
    else
      var d := PreparedDoc(nextId, body, code, now);
      Decide(docs, nextId, d, ValidationErrors(d, isEmail))
  }

  /** The submit route, drawing its code with `generateCode`. */
  method Submit(subs: SubmissionCollection, body: SubmitBody, draws: seq<real>, now: Time, isEmail: string -> bool)
    returns (reply: SubmitReply)
    requires subs.Valid() && ValidDraws(draws)
    modifies subs
    ensures subs.Valid()
    ensures SubmitStep(reply, subs.docs, subs.nextId)
      == SubmitSpec(old(subs.docs), old(subs.nextId), body, GenerateCode(draws), now, isEmail)
  {
    if body.socials.None? {
      return SubmitFailed;
    }
    var d := PreparedDoc(subs.nextId, body, GenerateCode(draws), now);
    reply := Store(subs, d, isEmail);
  }

  /** `create` after construction: validates, then inserts under the unique code index. */
  method Store(subs: SubmissionCollection, d: SubmissionDoc, isEmail: string -> bool) returns (reply: SubmitReply)
    requires subs.Valid() && d.id == subs.nextId
    modifies subs
    ensures subs.Valid()
    ensures SubmitStep(reply, subs.docs, subs.nextId) == Decide(old(subs.docs), old(subs.nextId), d, ValidationErrors(d, isEmail))
  {
    var errs := ValidationErrors(d, isEmail);
    if errs != [] {
      return SubmissionInvalid(ErrorMap(errs));
    }
    NoErrorsIffAcceptable(d, isEmail);
    var inserted := subs.Insert(d);
    if inserted {
      reply := Submitted(d.submissionCode, d.id, d.submittedAt);
    } else {
      reply := SubmissionExists;
    }
  }

  /** The hook's discord rewrite never fires after the handler's own normalisation. */
  lemma HookRewriteInert(id: Id, body: SubmitBody, code: string, now: Time)
    requires body.socials.Some?
    ensures PreparedDoc(id, body, code, now) == Construct(id, body.fields, NormaliseSocials(body.socials.value), code, now)
  {
    var v := NormaliseSocials(body.socials.value).discord.value;
    TrimKeepsPrefix(v, "http");
  }

  /**
   * A submission is stored exactly when `socials` is given, every rule
   * holds (the status enum included) and the code, the body's own or the
   * drawn one, is free.
   */
  lemma SubmitAcceptedIff(docs: seq<SubmissionDoc>, nextId: Id, body: SubmitBody, code: string, now: Time,
                          isEmail: string -> bool)
    ensures body.socials.None? ==> SubmitSpec(docs, nextId, body, code, now, isEmail).reply == SubmitFailed
    ensures body.socials.Some? ==>
      (SubmitSpec(docs, nextId, body, code, now, isEmail).reply.Submitted? <==>
         Acceptable(PreparedDoc(nextId, body, code, now), isEmail)
         && !CodeTaken(docs, Upper(Or(body.fields.submissionCode, code))))
  {
    if body.socials.Some? {
      DecideAcceptedIff(docs, nextId, PreparedDoc(nextId, body, code, now), isEmail);
    }
  }

  lemma DecideAcceptedIff(docs: seq<SubmissionDoc>, nextId: Id, d: SubmissionDoc, isEmail: string -> bool)
    ensures Decide(docs, nextId, d, ValidationErrors(d, isEmail)).reply.Submitted?
      <==> Acceptable(d, isEmail) && !CodeTaken(docs, d.submissionCode)
  {
    NoErrorsIffAcceptable(d, isEmail);
  }

  /**
   * A stored submission: it carries the next identifier, the body's code
   * in upper case or else the drawn one, and the body's values or else the
   * defaults for the status, the lock, the history, the deciding accounts
   * and the submission time; it is appended after the existing ones and
   * the collection stays well formed.
   */
  lemma SubmittedShape(docs: seq<SubmissionDoc>, nextId: Id, body: SubmitBody, code: string, now: Time,
                       isEmail: string -> bool)
    requires WellFormed(docs, nextId)
    requires SubmitSpec(docs, nextId, body, code, now, isEmail).reply.Submitted?
    ensures var r := SubmitSpec(docs, nextId, body, code, now, isEmail);
      var f := body.fields;
      && body.socials.Some?
      && r.reply == Submitted(Upper(Or(f.submissionCode, code)), nextId, Or(f.submittedAt, now))
      && |r.docs| == |docs| + 1 && r.docs[..|docs|] == docs && r.nextId == nextId + 1
      && var d := r.docs[|docs|];
      && d == PreparedDoc(nextId, body, code, now)
      && d.id == nextId && d.submissionCode == Upper(Or(f.submissionCode, code)) && d.submittedAt == Or(f.submittedAt, now)
      && d.status == Or(f.status, "pending") && d.status in StatusValues
      && d.statusLocked == Or(f.statusLocked, false) && d.statusHistory == Or(f.statusHistory, [])
      && d.approvedBy == f.approvedBy && d.rejectedBy == f.rejectedBy
      && WellFormed(r.docs, r.nextId)
  {
    var d := PreparedDoc(nextId, body, code, now);
    StoredShape(docs, nextId, d, isEmail);
  }

  lemma StoredShape(docs: seq<SubmissionDoc>, nextId: Id, d: SubmissionDoc, isEmail: string -> bool)
    requires WellFormed(docs, nextId) && d.id == nextId
    requires Decide(docs, nextId, d, ValidationErrors(d, isEmail)).reply.Submitted?
    ensures var r := Decide(docs, nextId, d, ValidationErrors(d, isEmail));
      && r.reply == Submitted(d.submissionCode, nextId, d.submittedAt)
      && r.docs == docs + [d] && r.nextId == nextId + 1
      && r.docs[..|docs|] == docs && r.docs[|docs|] == d
      && d.status in StatusValues
      && WellFormed(r.docs, r.nextId)
  {
    NoErrorsIffAcceptable(d, isEmail);
    assert (docs + [d])[..|docs|] == docs;
  }

  /**
   * A body holding only the content fields is stored pending, open and
   * unreviewed, under the drawn code in upper case and the request time.
   */
  lemma ContentSubmissionUnreviewed(docs: seq<SubmissionDoc>, nextId: Id, body: SubmitBody, code: string, now: Time,
                                    isEmail: string -> bool)
    requires WellFormed(docs, nextId) && OnlyContent(body.fields)
    requires SubmitSpec(docs, nextId, body, code, now, isEmail).reply.Submitted?
    ensures var r := SubmitSpec(docs, nextId, body, code, now, isEmail);
      && r.reply == Submitted(Upper(code), nextId, now)
      && |r.docs| == |docs| + 1 && Unreviewed(r.docs[|docs|])
  {
    SubmittedShape(docs, nextId, body, code, now, isEmail);
  }

  /**
   * The spread lets a submitter decide their own review: a stored body
   * with `statusLocked: true` is final from the start, and every review
   * request on it is refused.
   */
  lemma LockedOnArrival(docs: seq<SubmissionDoc>, nextId: Id, body: SubmitBody, code: string, now: Time,
                        isEmail: string -> bool, caller: U.UserDoc, requested: Option<string>, later: Time)
    requires WellFormed(docs, nextId) && body.fields.statusLocked == Some(true)
    requires SubmitSpec(docs, nextId, body, code, now, isEmail).reply.Submitted?
    ensures var after := SubmitSpec(docs, nextId, body, code, now, isEmail).docs;
      TransitionSpec(after, caller, nextId, requested, later) == StatusStep(StatusRefused(FinalizedMessage), after)
  {
    SubmittedShape(docs, nextId, body, code, now, isEmail);
    var after := SubmitSpec(docs, nextId, body, code, now, isEmail).docs;
    IndexOfIdUnique(after, nextId + 1, |docs|);
  }

  /**
   * A `status` outside the enum is refused with 400, the enum validator's
   * message listed under "status".
   */
  lemma UnknownStatusRefused(docs: seq<SubmissionDoc>, nextId: Id, body: SubmitBody, code: string, now: Time,
                             isEmail: string -> bool)
    requires body.socials.Some? && body.fields.status.Some? && body.fields.status.value !in StatusValues
    ensures var r := SubmitSpec(docs, nextId, body, code, now, isEmail);
      var v := body.fields.status.value;
      && r.reply.SubmissionInvalid? && r.docs == docs
      && "status" in r.reply.errors
      && r.reply.errors["status"] == "`" + v + "` is not a valid enum value for path `status`."
  {
    var d := PreparedDoc(nextId, body, code, now);
    NoErrorsIffAcceptable(d, isEmail);
    ErrorsByField(d, isEmail);
  }

  /** The reply's code is the stored one: the body's code, or else the drawn one, in upper case. */
  lemma SubmittedCode(docs: seq<SubmissionDoc>, nextId: Id, body: SubmitBody, code: string, now: Time,
                      isEmail: string -> bool)
    requires SubmitSpec(docs, nextId, body, code, now, isEmail).reply.Submitted?
    ensures SubmitSpec(docs, nextId, body, code, now, isEmail).reply.code == Upper(Or(body.fields.submissionCode, code))
  {
    var d := PreparedDoc(nextId, body, code, now);
    DecideSubmitted(docs, nextId, d, ValidationErrors(d, isEmail));
  }

  lemma DecideSubmitted(docs: seq<SubmissionDoc>, nextId: Id, d: SubmissionDoc, errs: seq<FieldError>)
    requires Decide(docs, nextId, d, errs).reply.Submitted?
    ensures Decide(docs, nextId, d, errs).reply.code == d.submissionCode
  {
  }

  /** Without a code in the body, the reply carries the very code `generateCode` drew. */
  lemma GeneratedCodeReported(docs: seq<SubmissionDoc>, nextId: Id, body: SubmitBody, draws: seq<real>, now: Time,
                              isEmail: string -> bool)
    requires ValidDraws(draws) && body.fields.submissionCode.None?
    requires SubmitSpec(docs, nextId, body, GenerateCode(draws), now, isEmail).reply.Submitted?
    ensures SubmitSpec(docs, nextId, body, GenerateCode(draws), now, isEmail).reply.code == GenerateCode(draws)
    ensures |GenerateCode(draws)| == CodeLength
  {
    SubmittedCode(docs, nextId, body, GenerateCode(draws), now, isEmail);
    UppercaseKeepsCode(draws);
  }

  /** A refused submission reports at least one field, each under its short name with its message. */
  lemma InvalidSubmissionErrors(docs: seq<SubmissionDoc>, nextId: Id, body: SubmitBody, code: string, now: Time,
                                isEmail: string -> bool)
    requires SubmitSpec(docs, nextId, body, code, now, isEmail).reply.SubmissionInvalid?
    ensures body.socials.Some?
    ensures var m := SubmitSpec(docs, nextId, body, code, now, isEmail).reply.errors;
      m == ErrorMap(ValidationErrors(PreparedDoc(nextId, body, code, now), isEmail)) && |m| > 0
  {
    var d := PreparedDoc(nextId, body, code, now);
    DecideInvalid(docs, nextId, d, ValidationErrors(d, isEmail));
  }

  lemma DecideInvalid(docs: seq<SubmissionDoc>, nextId: Id, d: SubmissionDoc, errs: seq<FieldError>)
    requires Decide(docs, nextId, d, errs).reply.SubmissionInvalid?
    ensures Decide(docs, nextId, d, errs).reply.errors == ErrorMap(errs) && |ErrorMap(errs)| > 0
  {
    assert ShortName(errs[0].path) in ErrorMap(errs);
  }

  /** After normalisation and trimming, the telegram and discord values the document holds. */
  lemma PreparedHandles(id: Id, body: SubmitBody, code: string, now: Time)
    requires body.socials.Some?
    ensures var n := NormaliseSocials(body.socials.value);
      var d := PreparedDoc(id, body, code, now);
      && d.socials.telegram == Some(Trim(n.telegram.value))
      && d.socials.discord == Some(Trim(n.discord.value))
  {
    HookRewriteInert(id, body, code, now);
  }

  /** The text the template renders for an absent telegram handle is trimmed already and passes the pattern. */
  lemma TelegramPlaceholderText()
    ensures Trim("@undefined") == "@undefined"
    ensures MatchesHandle("@undefined")
    ensures TelegramFailure(Some("@undefined")).None?
  {
    TrimStartNoop("@undefined");
    TrimEndNoop("@undefined");
    assert AllWord("@undefined"[1..]);
  }

  /** The same for an absent discord server. */
  lemma DiscordPlaceholderText()
    ensures Trim(DiscordPrefix + "undefined") == DiscordPrefix + "undefined"
    ensures MatchesDiscord(DiscordPrefix + "undefined")
    ensures DiscordFailure(Some(DiscordPrefix + "undefined")).None?
  {
    var u := DiscordPrefix + "undefined";
    TrimStartNoop(u);
    TrimEndNoop(u);
    assert u[..|DiscordPrefix|] == DiscordPrefix && u[|DiscordPrefix|..] == "undefined";
  }

  /**
   * The handler always supplies a telegram handle starting with '@', so
   * the field's `required` validator never fires: an omitted handle is
   * stored as "@undefined", which passes the pattern.
   */
  lemma TelegramAlwaysGiven(id: Id, body: SubmitBody, code: string, now: Time)
    requires body.socials.Some?
    ensures var t := PreparedDoc(id, body, code, now).socials.telegram;
      && Present(t) && StartsWith(t.value, "@")
      && (body.socials.value.telegram.None? ==> t == Some("@undefined") && TelegramFailure(t).None?)
  {
    PreparedHandles(id, body, code, now);
    TelegramValue(body.socials.value);
  }

  lemma TelegramValue(s: Socials)
    ensures var t := Trim(NormaliseSocials(s).telegram.value);
      && t != [] && StartsWith(t, "@")
      && (s.telegram.None? ==> t == "@undefined" && TelegramFailure(Some(t)).None?)
  {
    TrimKeepsPrefix(NormaliseSocials(s).telegram.value, "@");
    if s.telegram.None? {
      TelegramPlaceholder(s);
    }
  }

  /**
   * Likewise the handler always supplies a discord value starting with
   * "http": an omitted server is stored as "https://discord.gg/undefined",
   * which passes the invite-link pattern.
   */
  lemma DiscordAlwaysGiven(id: Id, body: SubmitBody, code: string, now: Time)
    requires body.socials.Some?
    ensures var v := PreparedDoc(id, body, code, now).socials.discord;
      && Present(v) && StartsWith(v.value, "http")
      && (body.socials.value.discord.None? ==> v == Some(DiscordPrefix + "undefined") && DiscordFailure(v).None?)
  {
    PreparedHandles(id, body, code, now);
    DiscordValue(body.socials.value);
  }

  lemma DiscordValue(s: Socials)
    ensures var v := Trim(NormaliseSocials(s).discord.value);
      && v != [] && StartsWith(v, "http")
      && (s.discord.None? ==> v == DiscordPrefix + "undefined" && DiscordFailure(Some(v)).None?)
  {
    TrimKeepsPrefix(NormaliseSocials(s).discord.value, "http");
    if s.discord.None? {
      DiscordPlaceholder(s);
    }
  }

  lemma TelegramPlaceholder(s: Socials)
    requires s.telegram.None?
    ensures var t := Trim(NormaliseSocials(s).telegram.value); t == "@undefined" && TelegramFailure(Some(t)).None?
  {
    assert NormaliseSocials(s).telegram.value == "@undefined";
    TelegramPlaceholderText();
  }

  lemma DiscordPlaceholder(s: Socials)
    requires s.discord.None?
    ensures var t := Trim(NormaliseSocials(s).discord.value); t == DiscordPrefix + "undefined" && DiscordFailure(Some(t)).None?
  {
    assert NormaliseSocials(s).discord.value == DiscordPrefix + "undefined";
    DiscordPlaceholderText();
  }

  // ---------------------------------------------------------------------
  // GET /

  /** `status ? { status } : {}`. */
  predicate MatchesStatus(d: SubmissionDoc, status: Option<string>) {
    !Present(status) || d.status == status.value
  }

  const ListLimit: nat := 100

  /** The sort keys of `{ submittedAt: 1 }` and `{ submittedAt: -1 }`. */
  function Earliness(d: SubmissionDoc): int {
    d.submittedAt
  }

  function Lateness(d: SubmissionDoc): int {
    -d.submittedAt
  }

  /** The status filter as a predicate on submissions. */
  function StatusFilter(status: Option<string>): SubmissionDoc -> bool {
    (d: SubmissionDoc) => MatchesStatus(d, status)
  }

  lemma OldestTaken(s: seq<SubmissionDoc>)
    ensures var r := Take(SortBy(s, Earliness), ListLimit);
      && (forall i, j :: 0 <= i < j < |r| ==> r[i].submittedAt <= r[j].submittedAt)
      && (forall x :: x in multiset(s) - multiset(r) ==> forall i :: 0 <= i < |r| ==> r[i].submittedAt <= x.submittedAt)
  {
    var r := Take(SortBy(s, Earliness), ListLimit);
    forall i, j | 0 <= i < j < |r|
      ensures r[i].submittedAt <= r[j].submittedAt
    {
      TakeOfSortOrder(s, Earliness, ListLimit, i, j);
    }
    forall x, i | x in multiset(s) - multiset(r) && 0 <= i < |r|
      ensures r[i].submittedAt <= x.submittedAt
    {
      TakeOfSortAt(s, Earliness, ListLimit, x, i);
    }
  }

  lemma NewestTaken(s: seq<SubmissionDoc>)
    ensures var r := Take(SortBy(s, Lateness), ListLimit);
      && (forall i, j :: 0 <= i < j < |r| ==> r[i].submittedAt >= r[j].submittedAt)
      && (forall x :: x in multiset(s) - multiset(r) ==> forall i :: 0 <= i < |r| ==> r[i].submittedAt >= x.submittedAt)
  {
    var r := Take(SortBy(s, Lateness), ListLimit);
    forall i, j | 0 <= i < j < |r|
      ensures r[i].submittedAt >= r[j].submittedAt
    {
      TakeOfSortOrder(s, Lateness, ListLimit, i, j);
    }
    forall x, i | x in multiset(s) - multiset(r) && 0 <= i < |r|
      ensures r[i].submittedAt >= x.submittedAt
    {
      TakeOfSortAt(s, Lateness, ListLimit, x, i);
    }
  }

  /**
   * `.sort({ submittedAt: 1 }).limit(100)`: the 100 oldest (all when there
   * are fewer), oldest first; nothing left out is older than a listed one.
   */
  function OldestFirst(s: seq<SubmissionDoc>): (r: seq<SubmissionDoc>)
    ensures |r| == (if |s| < ListLimit then |s| else ListLimit)
    ensures multiset(r) <= multiset(s) && (|s| <= ListLimit ==> multiset(r) == multiset(s))
    ensures forall i :: 0 <= i < |r| ==> r[i] in s
    ensures forall i, j :: 0 <= i < j < |r| ==> r[i].submittedAt <= r[j].submittedAt
    ensures forall x :: x in multiset(s) - multiset(r) ==> forall i :: 0 <= i < |r| ==> r[i].submittedAt <= x.submittedAt
  {
    TakeOfSort(s, Earliness, ListLimit);
    OldestTaken(s);
    Take(SortBy(s, Earliness), ListLimit)
  }

  /**
   * `.sort({ submittedAt: -1 }).limit(100)`: the 100 newest, newest first;
   * nothing left out is newer than a listed one.
   */
  function NewestFirst(s: seq<SubmissionDoc>): (r: seq<SubmissionDoc>)
    ensures |r| == (if |s| < ListLimit then |s| else ListLimit)
    ensures multiset(r) <= multiset(s) && (|s| <= ListLimit ==> multiset(r) == multiset(s))
    ensures forall i :: 0 <= i < |r| ==> r[i] in s
    ensures forall i, j :: 0 <= i < j < |r| ==> r[i].submittedAt >= r[j].submittedAt
    ensures forall x :: x in multiset(s) - multiset(r) ==> forall i :: 0 <= i < |r| ==> r[i].submittedAt >= x.submittedAt
  {
    TakeOfSort(s, Lateness, ListLimit);
    NewestTaken(s);
    Take(SortBy(s, Lateness), ListLimit)
  }

  /**
   * The admin listing, sorted on `submittedAt` ascending for
   * `sort=oldest` and descending otherwise, limited to 100: the listed
   * submissions are 100 of those matching the status filter (all when
   * fewer match), in the requested order, and every matching submission
   * left out comes after every listed one in that order.
   */
  function ListSubmissions(docs: seq<SubmissionDoc>, status: Option<string>, sort: Option<string>): (r: seq<SubmissionDoc>)
    ensures forall i :: 0 <= i < |r| ==> r[i] in docs && MatchesStatus(r[i], status)
    ensures sort == Some("oldest") ==> forall i, j :: 0 <= i < j < |r| ==> r[i].submittedAt <= r[j].submittedAt
    ensures sort != Some("oldest") ==> forall i, j :: 0 <= i < j < |r| ==> r[i].submittedAt >= r[j].submittedAt
  {
    var matching := Filter(docs, StatusFilter(status));
    assert forall i :: 0 <= i < |matching| ==> matching[i] in docs && MatchesStatus(matching[i], status);
    if sort == Some("oldest") then OldestFirst(matching) else NewestFirst(matching)
  }

  /**
   * How many of the matching submissions the listing holds, and that every
   * matching submission left out comes after every listed one in the
   * requested order.
   */
  lemma ListedFirst(docs: seq<SubmissionDoc>, status: Option<string>, sort: Option<string>)
    ensures var matching, r := Filter(docs, StatusFilter(status)), ListSubmissions(docs, status, sort);
      && |r| == (if |matching| < ListLimit then |matching| else ListLimit)
      && multiset(r) <= multiset(matching)
      && (|matching| <= ListLimit ==> multiset(r) == multiset(matching))
      && (sort == Some("oldest") ==> forall x :: x in multiset(matching) - multiset(r) ==>
            forall i :: 0 <= i < |r| ==> r[i].submittedAt <= x.submittedAt)
      && (sort != Some("oldest") ==> forall x :: x in multiset(matching) - multiset(r) ==>
            forall i :: 0 <= i < |r| ==> r[i].submittedAt >= x.submittedAt)
  {
    var matching := Filter(docs, StatusFilter(status));
    if sort == Some("oldest") {
      assert ListSubmissions(docs, status, sort) == OldestFirst(matching);
    } else {
      assert ListSubmissions(docs, status, sort) == NewestFirst(matching);
    }
  }

  // ---------------------------------------------------------------------
  // GET /:id and DELETE /:id

  datatype GetReply = Found(doc: SubmissionDoc) | NotFound {
    function Status(): int {
      if Found? then 200 else 404
    }
  }

  /** `findById`, 404 "Submission not found" when missing. */
  function GetSubmission(docs: seq<SubmissionDoc>, id: Id): (r: GetReply)
    ensures r.Found? ==> r.doc in docs && r.doc.id == id
    ensures r.NotFound? <==> forall k :: 0 <= k < |docs| ==> docs[k].id != id
  {
    match IndexOfId(docs, id)
    case None => NotFound
    case Some(k) => Found(docs[k])
  }

  datatype DeleteReply = Deleted | DeleteNotFound {
    function Status(): int {
      if Deleted? then 200 else 404
    }
  }

  datatype DeleteStep = DeleteStep(reply: DeleteReply, docs: seq<SubmissionDoc>)

  function DeleteSpec(docs: seq<SubmissionDoc>, id: Id): (r: DeleteStep)
    ensures r.reply.DeleteNotFound? ==> r.docs == docs
  {
    match IndexOfId(docs, id)
    case None => DeleteStep(DeleteNotFound, docs)
    case Some(k) => DeleteStep(Deleted, docs[..k] + docs[k + 1..])
  }

  method Delete(subs: SubmissionCollection, id: Id) returns (reply: DeleteReply)
    requires subs.Valid()
    modifies subs
    ensures subs.Valid() && subs.nextId == old(subs.nextId)
    ensures DeleteStep(reply, subs.docs) == DeleteSpec(old(subs.docs), id)
  {
    var k := IndexOfId(subs.docs, id);
    if k.None? {
      return DeleteNotFound;
    }
    subs.RemoveAt(k.value);
    reply := Deleted;
  }

  /** Deleting removes that one submission and keeps every other, and afterwards it is not found. */
  lemma DeleteRemovesOne(docs: seq<SubmissionDoc>, nextId: Id, id: Id)
    requires WellFormed(docs, nextId)
    ensures var r := DeleteSpec(docs, id);
      && (r.reply.Deleted? <==> exists k :: 0 <= k < |docs| && docs[k].id == id)
      && (forall d :: d in docs && d.id != id ==> d in r.docs)
      && GetSubmission(r.docs, id) == NotFound
      && |r.docs| == (if r.reply.Deleted? then |docs| - 1 else |docs|)
  {
    var r := DeleteSpec(docs, id);
    match IndexOfId(docs, id)
    case None =>
    case Some(k) =>
      assert forall a :: 0 <= a < |r.docs| ==> r.docs[a] == docs[if a < k then a else a + 1];
      forall d | d in docs && d.id != id
        ensures d in r.docs
      {
        var a :| 0 <= a < |docs| && docs[a] == d;
        assert a != k;
        assert r.docs[if a < k then a else a - 1] == d;
      }
  }

  // ---------------------------------------------------------------------
  // PATCH /:id/status

  /**
   * `allowedTransitions[status]`: only a pending submission may move, to
   * approved or rejected; a status the table lacks has no entry, and
   * calling `includes` on it throws.
   */
  function AllowedTargets(s: string): (r: Option<seq<string>>)
    ensures r.Some? <==> s in StatusValues
    ensures r.Some? ==> forall t :: t in r.value <==> s == "pending" && (t == "approved" || t == "rejected")
  {
    if s == "pending" then Some(["approved", "rejected"])
    else if s == "approved" || s == "rejected" then Some([])
    else None
  }

  datatype StatusReply = StatusUpdated(doc: SubmissionDoc) | StatusRefused(message: string) | StatusFailed {
    function Status(): int {
      match this
      case StatusUpdated(_) => 200
      case StatusRefused(_) => 400
      case StatusFailed => 500
    }
  }

  datatype StatusStep = StatusStep(reply: StatusReply, docs: seq<SubmissionDoc>)

  const FinalizedMessage: string := "This submission has been finalized and cannot be modified"

  function InvalidMoveMessage(from: string, requested: Option<string>): string {
    "Invalid status transition from " + from + " to " + Shown(requested)
  }

  /** The update the route sends: the new status, the lock, the history entry and the deciding account. */
  function Reviewed(d: SubmissionDoc, target: string, reviewer: Id, now: Time): SubmissionDoc
    requires target == "approved" || target == "rejected"
  {
    d.(status := target,
       statusLocked := true,
       statusHistory := d.statusHistory + [HistoryEntry(target, reviewer, now)],
       approvedBy := if target == "approved" then Some(reviewer) else d.approvedBy,
       rejectedBy := if target == "rejected" then Some(reviewer) else d.rejectedBy)
  }

  /**
   * The review handler: a missing submission throws on `statusLocked`
   * (500); a locked one is final; the requested status must be one the
   * current status allows.
   */
  function TransitionSpec(docs: seq<SubmissionDoc>, caller: U.UserDoc, id: Id, requested: Option<string>, now: Time)
    : (r: StatusStep)
    ensures !r.reply.StatusUpdated? ==> r.docs == docs
    ensures r.reply.StatusUpdated? ==> IndexOfId(docs, id).Some?
    ensures |r.docs| == |docs|
  {
    match IndexOfId(docs, id)
    case None => StatusStep(StatusFailed, docs)
    case Some(k) =>
      var d := docs[k];
      if d.statusLocked then StatusStep(StatusRefused(FinalizedMessage), docs)
      else match AllowedTargets(d.status)
        case None => StatusStep(StatusFailed, docs)
        case Some(targets) =>
          if requested.None? || requested.value !in targets then
            StatusStep(StatusRefused(InvalidMoveMessage(d.status, requested)), docs)
          else
            var n := Reviewed(d, requested.value, caller.id, now);
            StatusStep(StatusUpdated(n), docs[k := n])
  }

  method Transition(subs: SubmissionCollection, caller: U.UserDoc, id: Id, requested: Option<string>, now: Time)
    returns (reply: StatusReply)
    requires subs.Valid()
    modifies subs
    ensures subs.Valid() && subs.nextId == old(subs.nextId)
    ensures StatusStep(reply, subs.docs) == TransitionSpec(old(subs.docs), caller, id, requested, now)
  {
    var k := IndexOfId(subs.docs, id);
    if k.None? {
      return StatusFailed;
    }
    var d := subs.docs[k.value];
    if d.statusLocked {
      return StatusRefused(FinalizedMessage);
    }
    var targets := AllowedTargets(d.status);
    if targets.None? {
      return StatusFailed;
    }
    if requested.None? || requested.value !in targets.value {
      return StatusRefused(InvalidMoveMessage(d.status, requested));
    }
    var n := Reviewed(d, requested.value, caller.id, now);
    subs.Update(k.value, n);
    reply := StatusUpdated(n);
  }

  /**
   * An accepted review: the submission was pending and open, the request
   * named approved or rejected, the new status is that one, the submission
   * is locked, one history entry was appended, the caller is recorded as
   * approver when approving and as rejecter when rejecting, the other
   * deciding account is kept, nothing else of the submission changed and
   * no other submission changed.
   */
  lemma TransitionAccepted(docs: seq<SubmissionDoc>, caller: U.UserDoc, id: Id, requested: Option<string>, now: Time)
    requires TransitionSpec(docs, caller, id, requested, now).reply.StatusUpdated?
    ensures IndexOfId(docs, id).Some?
    ensures var k := IndexOfId(docs, id).value;
      var old_ := docs[k];
      var r := TransitionSpec(docs, caller, id, requested, now);
      var n := r.reply.doc;
      && old_.status == "pending" && !old_.statusLocked
      && requested.Some? && (requested.value == "approved" || requested.value == "rejected")
      && n.status == requested.value && n.statusLocked
      && n.statusHistory == old_.statusHistory + [HistoryEntry(requested.value, caller.id, now)]
      && (requested.value == "approved" ==> n.approvedBy == Some(caller.id) && n.rejectedBy == old_.rejectedBy)
      && (requested.value == "rejected" ==> n.rejectedBy == Some(caller.id) && n.approvedBy == old_.approvedBy)
      && n == old_.(status := n.status, statusLocked := true, statusHistory := n.statusHistory,
                    approvedBy := n.approvedBy, rejectedBy := n.rejectedBy)
      && r.docs == docs[k := n]
  {
  }

  /**
   * Conversely, an open pending submission takes an approve or a reject
   * request.
   */
  lemma TransitionSucceeds(docs: seq<SubmissionDoc>, caller: U.UserDoc, k: nat, requested: string, now: Time)
    requires k < |docs| && IndexOfId(docs, docs[k].id) == Some(k)
    requires docs[k].status == "pending" && !docs[k].statusLocked
    requires requested == "approved" || requested == "rejected"
    ensures TransitionSpec(docs, caller, docs[k].id, Some(requested), now).reply.StatusUpdated?
  {
  }

  /**
   * On a submission nobody reviewed, an accepted review leaves exactly one
   * history entry and exactly the matching deciding account.
   */
  lemma FirstReviewConsistent(docs: seq<SubmissionDoc>, caller: U.UserDoc, id: Id, requested: Option<string>, now: Time)
    requires TransitionSpec(docs, caller, id, requested, now).reply.StatusUpdated?
    requires Unreviewed(docs[IndexOfId(docs, id).value])
    ensures var n := TransitionSpec(docs, caller, id, requested, now).reply.doc;
      && |n.statusHistory| == 1
      && (n.approvedBy.Some? <==> n.status == "approved") && (n.rejectedBy.Some? <==> n.status == "rejected")
      && (n.approvedBy.Some? ==> n.approvedBy == Some(caller.id))
      && (n.rejectedBy.Some? ==> n.rejectedBy == Some(caller.id))
  {
    TransitionAccepted(docs, caller, id, requested, now);
  }

  /** Reviews keep the identifiers and codes unique and every status in the enum. */
  lemma TransitionKeepsWellFormed(docs: seq<SubmissionDoc>, nextId: Id, caller: U.UserDoc, id: Id,
                                  requested: Option<string>, now: Time)
    requires WellFormed(docs, nextId)
    ensures WellFormed(TransitionSpec(docs, caller, id, requested, now).docs, nextId)
  {
    var r := TransitionSpec(docs, caller, id, requested, now);
    if r.reply.StatusUpdated? {
      var k := IndexOfId(docs, id).value;
      assert forall a :: 0 <= a < |docs| && a != k ==> r.docs[a] == docs[a];
    }
  }

  /** A missing submission fails with 500, and nothing changes. */
  lemma TransitionOnMissing(docs: seq<SubmissionDoc>, caller: U.UserDoc, id: Id, requested: Option<string>, now: Time)
    requires forall k :: 0 <= k < |docs| ==> docs[k].id != id
    ensures TransitionSpec(docs, caller, id, requested, now) == StatusStep(StatusFailed, docs)
  {
  }

  /** A locked submission is final whatever is requested. */
  lemma TransitionOnLocked(docs: seq<SubmissionDoc>, caller: U.UserDoc, k: nat, requested: Option<string>, now: Time)
    requires k < |docs| && IndexOfId(docs, docs[k].id) == Some(k) && docs[k].statusLocked
    ensures TransitionSpec(docs, caller, docs[k].id, requested, now) == StatusStep(StatusRefused(FinalizedMessage), docs)
  {
  }

  /**
   * An open submission refuses every request unless it is pending and the
   * request is approved or rejected; the message names both statuses.
   */
  lemma TransitionInvalidMove(docs: seq<SubmissionDoc>, caller: U.UserDoc, k: nat, requested: Option<string>, now: Time)
    requires k < |docs| && IndexOfId(docs, docs[k].id) == Some(k) && !docs[k].statusLocked
    requires docs[k].status in StatusValues
    requires docs[k].status != "pending" || (requested != Some("approved") && requested != Some("rejected"))
    ensures TransitionSpec(docs, caller, docs[k].id, requested, now)
      == StatusStep(StatusRefused(InvalidMoveMessage(docs[k].status, requested)), docs)
  {
    assert requested.None? || requested.value !in AllowedTargets(docs[k].status).value;
  }

  /** A decision is final: after an accepted review every further request on that submission is refused. */
  lemma DecisionIsFinal(docs: seq<SubmissionDoc>, nextId: Id, caller: U.UserDoc, id: Id, requested: Option<string>,
                        now: Time, caller2: U.UserDoc, requested2: Option<string>, later: Time)
    requires WellFormed(docs, nextId)
    requires TransitionSpec(docs, caller, id, requested, now).reply.StatusUpdated?
    ensures var after := TransitionSpec(docs, caller, id, requested, now).docs;
      TransitionSpec(after, caller2, id, requested2, later) == StatusStep(StatusRefused(FinalizedMessage), after)
  {
    var k := IndexOfId(docs, id).value;
    var after := TransitionSpec(docs, caller, id, requested, now).docs;
    TransitionKeepsWellFormed(docs, nextId, caller, id, requested, now);
    IndexOfIdUnique(after, nextId, k);
  }
}
