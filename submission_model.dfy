/**
 * The project submission document (models/Submission.js): the setters and
 * defaults applied on construction, the pre-validate hook (discord
 * rewrite and the contact rule), every field validator with its message,
 * and the submission collection.
 */
module SubmissionModel {
  import opened Base

  /** The `status` enum. */
  const StatusValues: set<string> := {"pending", "approved", "rejected"}

  /** One element of `statusHistory`; `status` is stored as the string sent. */
  datatype HistoryEntry = HistoryEntry(status: string, changedBy: Id, changedAt: Time)

  /** `socials`; an absent path is `None`. */
  datatype Socials = Socials(x: Option<string>, telegram: Option<string>, discord: Option<string>, founderTg: Option<string>)

  /**
   * A submission document; the user-supplied paths may be absent, and
   * `status` holds the string it was given (the enum validator checks it).
   */
  datatype SubmissionDoc = SubmissionDoc(
    id: Id,
    projectName: Option<string>,
    description: Option<string>,
    email: Option<string>,
    socials: Socials,
    submissionCode: string,
    statusHistory: seq<HistoryEntry>,
    approvedBy: Option<Id>,
    rejectedBy: Option<Id>,
    status: string,
    statusLocked: bool,
    submittedAt: Time)

  /**
   * The top-level schema paths a submission is created from other than
   * `socials`, each absent (`None`) unless the creating object carries it.
   */
  datatype SubmissionFields = SubmissionFields(
    projectName: Option<string>,
    description: Option<string>,
    email: Option<string>,
    submissionCode: Option<string>,
    statusHistory: Option<seq<HistoryEntry>>,
    approvedBy: Option<Id>,
    rejectedBy: Option<Id>,
    status: Option<string>,
    statusLocked: Option<bool>,
    submittedAt: Option<Time>)

  /** Only the fields a submitter is expected to fill in. */
  predicate OnlyContent(f: SubmissionFields) {
    && f.submissionCode.None? && f.statusHistory.None? && f.approvedBy.None? && f.rejectedBy.None?
    && f.status.None? && f.statusLocked.None? && f.submittedAt.None?
  }

  /** A submission nobody has reviewed: pending, open, with no history and no deciding account. */
  predicate Unreviewed(d: SubmissionDoc) {
    d.status == "pending" && !d.statusLocked && d.statusHistory == [] && d.approvedBy.None? && d.rejectedBy.None?
  }

  function Or<T>(v: Option<T>, default: T): (r: T)
    ensures v.Some? ==> r == v.value
    ensures v.None? ==> r == default
  {
    if v.Some? then v.value else default
  }

  /** JavaScript truthiness of an optional string: present and not empty. */
  predicate Present(v: Option<string>) {
    v.Some? && v.value != []
  }

  function MapOption(v: Option<string>, f: string -> string): (r: Option<string>)
    ensures r.Some? <==> v.Some?
    ensures r.Some? ==> r.value == f(v.value)
  {
    if v.None? then None else Some(f(v.value))
  }

  // ---------------------------------------------------------------------
  // Patterns

  /** `\w`: an ASCII letter, digit or underscore. */
  predicate IsWordChar(c: char) {
    ('a' <= c <= 'z') || ('A' <= c <= 'Z') || ('0' <= c <= '9') || c == '_'
  }

  predicate AllWord(s: string) {
    forall i :: 0 <= i < |s| ==> IsWordChar(s[i])
  }

  /** `/^\w{1,15}$/`. */
  predicate MatchesX(s: string) {
    1 <= |s| <= 15 && AllWord(s)
  }

  /** `/^@[\w]{5,32}$/`, shared by `telegram` and `founderTg`. */
  predicate MatchesHandle(s: string) {
    6 <= |s| <= 33 && s[0] == '@' && AllWord(s[1..])
  }

  const DiscordPrefix: string := "https://discord.gg/"
  const PlainDiscordPrefix: string := "http://discord.gg/"

  /** `[\w-]{2,}` */
  predicate IsInviteSlug(s: string) {
    |s| >= 2 && forall i :: 0 <= i < |s| ==> IsWordChar(s[i]) || s[i] == '-'
  }

  /** `/^https?:\/\/discord\.gg\/[\w-]{2,}$/`. */
  predicate MatchesDiscord(s: string) {
    || (StartsWith(s, DiscordPrefix) && IsInviteSlug(s[|DiscordPrefix|..]))
    || (StartsWith(s, PlainDiscordPrefix) && IsInviteSlug(s[|PlainDiscordPrefix|..]))
  }

  // ---------------------------------------------------------------------
  // Construction and the pre-validate hook

  /**
   * `new Submission(fields + socials)`: the `trim`, `lowercase` and
   * `uppercase` setters, and the defaults for the paths left absent; `code`
   * is what the `submissionCode` default would draw.
   */
  function Construct(id: Id, f: SubmissionFields, socials: Socials, code: string, now: Time): (d: SubmissionDoc)
    ensures d.id == id && d.description == f.description
    ensures d.submissionCode == Upper(Or(f.submissionCode, code))
    ensures d.status == Or(f.status, "pending") && d.statusLocked == Or(f.statusLocked, false)
    ensures d.statusHistory == Or(f.statusHistory, []) && d.submittedAt == Or(f.submittedAt, now)
    ensures d.approvedBy == f.approvedBy && d.rejectedBy == f.rejectedBy
    ensures OnlyContent(f) ==> Unreviewed(d) && d.submittedAt == now && d.submissionCode == Upper(code)
  {
    var s := socials;
    SubmissionDoc(
      id,
      MapOption(f.projectName, Trim),
      f.description,
      MapOption(f.email, (e: string) => Trim(Lower(e))),
      Socials(MapOption(s.x, Trim), MapOption(s.telegram, Trim), MapOption(s.discord, Trim), MapOption(s.founderTg, Trim)),
      Upper(Or(f.submissionCode, code)), Or(f.statusHistory, []), f.approvedBy, f.rejectedBy,
      Or(f.status, "pending"), Or(f.statusLocked, false), Or(f.submittedAt, now))
  }

  /**
   * The discord half of the pre-validate hook: a present value that does
   * not start with 'http' is rewritten to an invite link (the assignment
   * passes through the `trim` setter again).
   */
  function RewriteDiscord(d: SubmissionDoc): (r: SubmissionDoc)
    ensures r == d.(socials := d.socials.(discord := r.socials.discord))
    ensures Present(d.socials.discord) && !StartsWith(d.socials.discord.value, "http") ==>
              r.socials.discord == Some(Trim(DiscordPrefix + d.socials.discord.value))
    ensures !Present(d.socials.discord) || StartsWith(d.socials.discord.value, "http") ==> r == d
  {
    var v := d.socials.discord;
    if Present(v) && !StartsWith(v.value, "http") then
      d.(socials := d.socials.(discord := Some(Trim(DiscordPrefix + v.value))))
    else d
  }

  // ---------------------------------------------------------------------
  // Validation

  /**
   * A failed validator: its path, kept as the list of the dotted path's
   * segments (`socials.telegram` is ["socials", "telegram"]), and its message.
   */
  datatype FieldError = FieldError(path: seq<string>, message: string)

  /** `trim`med, required, at most 100 UTF-16 code units. */
  function ProjectNameFailure(v: Option<string>): Option<string> {
    if !Present(v) then Some("Project name is required")
    else if JsLength(v.value) > 100 then Some("Project name cannot exceed 100 characters")
    else None
  }

  /** Required, 50 to 2000 UTF-16 code units. */
  function DescriptionFailure(v: Option<string>): Option<string> {
    if !Present(v) then Some("Project description is required")
    else if JsLength(v.value) < 50 then Some("Description should be at least 50 characters")
    else if JsLength(v.value) > 2000 then Some("Description cannot exceed 2000 characters")
    else None
  }

  /** `v => !v || validator.isEmail(v)`. */
  function EmailFailure(v: Option<string>, isEmail: string -> bool): Option<string> {
    if Present(v) && !isEmail(v.value) then Some("Invalid email address") else None
  }

  function XFailure(v: Option<string>): Option<string> {
    if !Present(v) then Some("X (Twitter) handle is required")
    else if !MatchesX(v.value) then Some("Invalid X handle (1-15 letters/numbers)")
    else None
  }

  function TelegramFailure(v: Option<string>): Option<string> {
    if !Present(v) then Some("Telegram handle is required")
    else if !MatchesHandle(v.value) then Some("Must start with @ and 5-32 characters")
    else None
  }

  function DiscordFailure(v: Option<string>): Option<string> {
    if !Present(v) then Some("Discord server is required")
    else if !MatchesDiscord(v.value) then Some("Invalid Discord invite link")
    else None
  }

  /**
   * `socials.founderTg`: the contact rule of the hook invalidates it when
   * neither an email nor a founder handle is given; a given handle must
   * match the pattern (`match` skips an empty value).
   */
  function FounderTgFailure(v: Option<string>, email: Option<string>): Option<string> {
    if !Present(email) && !Present(v) then Some("Either email or founder Telegram required")
    else if Present(v) && !MatchesHandle(v.value) then Some("Must start with @ and 5-32 characters")
    else None
  }

  /** The enum validator with mongoose's default message. */
  function StatusFailure(v: string): Option<string> {
    if v in StatusValues then None
    else Some("`" + v + "` is not a valid enum value for path `status`.")
  }

  /** `validate()` records the path's error when its validator failed. */
  function Checked(errs: seq<FieldError>, path: seq<string>, failure: Option<string>): (r: seq<FieldError>)
    ensures |r| <= |errs| + 1
  {
    if failure.Some? then errs + [FieldError(path, failure.value)] else errs
  }

  /** Every error `validate()` reports, in the order the paths are validated, after the hook ran. */
  function ValidationErrors(d: SubmissionDoc, isEmail: string -> bool): seq<FieldError> {
    var e1 := Checked([], ["socials", "founderTg"], FounderTgFailure(d.socials.founderTg, d.email));
    var e2 := Checked(e1, ["projectName"], ProjectNameFailure(d.projectName));
    var e3 := Checked(e2, ["description"], DescriptionFailure(d.description));
    var e4 := Checked(e3, ["email"], EmailFailure(d.email, isEmail));
    var e5 := Checked(e4, ["socials", "x"], XFailure(d.socials.x));
    var e6 := Checked(e5, ["socials", "telegram"], TelegramFailure(d.socials.telegram));
    var e7 := Checked(e6, ["socials", "discord"], DiscordFailure(d.socials.discord));
    Checked(e7, ["status"], StatusFailure(d.status))
  }

  /** The schema's rules stated positively, field by field. */
  predicate Acceptable(d: SubmissionDoc, isEmail: string -> bool) {
    && Present(d.projectName) && JsLength(d.projectName.value) <= 100
    && Present(d.description) && 50 <= JsLength(d.description.value) <= 2000
    && (!Present(d.email) || isEmail(d.email.value))
    && Present(d.socials.x) && MatchesX(d.socials.x.value)
    && Present(d.socials.telegram) && MatchesHandle(d.socials.telegram.value)
    && Present(d.socials.discord) && MatchesDiscord(d.socials.discord.value)
    && (!Present(d.socials.founderTg) || MatchesHandle(d.socials.founderTg.value))
    && (Present(d.email) || Present(d.socials.founderTg))
    && d.status in StatusValues
  }

  /** Validation reports nothing exactly when every rule holds. */
  lemma NoErrorsIffAcceptable(d: SubmissionDoc, isEmail: string -> bool)
    ensures ValidationErrors(d, isEmail) == [] <==> Acceptable(d, isEmail)
  {
  }

  /** Without an email and without a founder handle the document is refused, blamed on `socials.founderTg`. */
  lemma ContactRequired(d: SubmissionDoc, isEmail: string -> bool)
    requires !Present(d.email) && !Present(d.socials.founderTg)
    ensures FieldError(["socials", "founderTg"], "Either email or founder Telegram required") in ValidationErrors(d, isEmail)
  {
  }

  // ---------------------------------------------------------------------
  // The collection

  /**
   * What the schema and the unique indexes keep true of the stored
   * submissions: identifiers below the counter, a status of the enum, and
   * unique identifiers and codes.
   */
  predicate WellFormed(docs: seq<SubmissionDoc>, nextId: Id) {
    && (forall i :: 0 <= i < |docs| ==> docs[i].id < nextId && docs[i].status in StatusValues)
    && (forall i, j :: 0 <= i < j < |docs| ==> docs[i].id != docs[j].id && docs[i].submissionCode != docs[j].submissionCode)
  }

  predicate CodeTaken(docs: seq<SubmissionDoc>, code: string) {
    exists k :: 0 <= k < |docs| && docs[k].submissionCode == code
  }

  /** `findById`: the position of the submission with this `_id`. */
  function IndexOfId(docs: seq<SubmissionDoc>, id: Id): (r: Option<nat>)
    ensures r.Some? ==> r.value < |docs| && docs[r.value].id == id
    ensures r.None? ==> forall k :: 0 <= k < |docs| ==> docs[k].id != id
  {
    if docs == [] then None
    else if docs[0].id == id then Some(0)
    else match IndexOfId(docs[1..], id)
      case None => None
      case Some(k) => Some(k + 1)
  }

  lemma IndexOfIdUnique(docs: seq<SubmissionDoc>, nextId: Id, k: nat)
    requires WellFormed(docs, nextId) && k < |docs|
    ensures IndexOfId(docs, docs[k].id) == Some(k)
  {
  }

  class SubmissionCollection {
    var docs: seq<SubmissionDoc>
    var nextId: Id

    ghost predicate Valid()
      reads this
    {
      WellFormed(docs, nextId)
    }

    constructor ()
      ensures Valid() && docs == [] && nextId == 0
    {
      docs := [];
      nextId := 0;
    }

    /** The insert of `save()` for a new, validated document: the unique index on `submissionCode`. */
    method Insert(d: SubmissionDoc) returns (inserted: bool)
      requires Valid() && d.id == nextId && d.status in StatusValues
      modifies this
      ensures Valid()
      ensures inserted <==> !CodeTaken(old(docs), d.submissionCode)
      ensures inserted ==> docs == old(docs) + [d] && nextId == old(nextId) + 1
      ensures !inserted ==> docs == old(docs) && nextId == old(nextId)
    {
      var k := 0;
      while k < |docs|
        invariant 0 <= k <= |docs|
        invariant forall j :: 0 <= j < k ==> docs[j].submissionCode != d.submissionCode
      {
        if docs[k].submissionCode == d.submissionCode {
          return false;
        }
        k := k + 1;
      }
      docs := docs + [d];
      nextId := nextId + 1;
      inserted := true;
    }

    /** `findByIdAndUpdate` on the submission at position `i`. */
    method Update(i: nat, d: SubmissionDoc)
      requires Valid() && i < |docs|
      requires d.id == docs[i].id && d.submissionCode == docs[i].submissionCode && d.status in StatusValues
      modifies this
      ensures Valid() && nextId == old(nextId)
      ensures docs == old(docs)[i := d]
    {
      docs := docs[i := d];
      assert forall a :: 0 <= a < |docs| && a != i ==> docs[a] == old(docs)[a];
    }

    /** `findByIdAndDelete` on the submission at position `i`. */
    method RemoveAt(i: nat)
      requires Valid() && i < |docs|
      modifies this
      ensures Valid() && nextId == old(nextId)
      ensures docs == old(docs)[..i] + old(docs)[i + 1..]
    {
      var d := docs[..i] + docs[i + 1..];
      assert forall a :: 0 <= a < |d| ==> d[a] == docs[if a < i then a else a + 1];
      docs := d;
    }
  }
}
