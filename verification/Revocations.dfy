/** Which revocation an event asks for, and whom it concerns. */
module Revocations {
  import opened Wrappers

  type User = string
  type Org = string
  type Session = string

  datatype EndReason = SessionRevoked | TokenReuseDetected

  datatype Message =
    | EndSession(session: Session, reason: EndReason)
    | MemberRemoved(org: Org, user: User)
    | RecheckUser(org: Org, user: User)
    | RecheckOrg(org: Org)

  /** A payload field: text, or something else. */
  datatype Field = Text(s: string) | Other

  /** An outbox row as the gateway reads it; the payload is None when it is not an object. */
  datatype Row = Row(name: string, org: Org, payload: Option<map<string, Field>>)

  /** The field's text, unless it is missing, empty or not text. */
  function TextOf(fields: map<string, Field>, key: string): Option<string> {
    if key in fields && fields[key].Text? && fields[key].s != "" then Some(fields[key].s) else None
  }

  function RevocationOf(row: Row): Option<Message> {
    if row.payload.None? then None
    else
      var fields := row.payload.value;
      match row.name
      case "session.revoked" =>
        (match TextOf(fields, "sessionId")
         case Some(session) => Some(EndSession(session, SessionRevoked))
         case None => None)
      case "session.token_reuse_detected" =>
        (match TextOf(fields, "sessionId")
         case Some(session) => Some(EndSession(session, TokenReuseDetected))
         case None => None)
      case "member.removed" =>
        (match TextOf(fields, "userId")
         case Some(user) => Some(MemberRemoved(row.org, user))
         case None => None)
      case "member.role_changed" =>
        (match TextOf(fields, "userId")
         case Some(user) => Some(RecheckUser(row.org, user))
         case None => None)
      case "grant.revoked" =>
        if "subjectType" in fields && fields["subjectType"] == Text("team") then Some(RecheckOrg(row.org))
        else
          (match TextOf(fields, "subjectId")
           case Some(user) => Some(RecheckUser(row.org, user))
           case None => Some(RecheckOrg(row.org)))
      case _ => None
  }

  /** Whether a message puts a user's rooms in an org in question. */
  predicate Names(message: Message, user: User, org: Org) {
    match message
    case EndSession(_, _) => false
    case MemberRemoved(o, u) => o == org && u == user
    case RecheckUser(o, u) => o == org && u == user
    case RecheckOrg(o) => o == org
  }

  /** The row's payload has this text, not empty, under the key. */
  predicate Says(row: Row, key: string, s: string) {
    row.payload.Some? && key in row.payload.value && row.payload.value[key] == Text(s) && s != ""
  }

  ghost predicate SaysSomething(row: Row, key: string) {
    exists s :: Says(row, key, s)
  }

  predicate IsTeamGrant(row: Row) {
    row.payload.Some? && "subjectType" in row.payload.value && row.payload.value["subjectType"] == Text("team")
  }

  const SESSION_ROWS := {"session.revoked", "session.token_reuse_detected"}
  const MEMBER_ROWS := {"member.removed", "member.role_changed"}

  lemma TextIsSaid(row: Row, key: string, s: string)
    requires row.payload.Some?
    ensures TextOf(row.payload.value, key) == Some(s) <==> Says(row, key, s)
    ensures TextOf(row.payload.value, key).Some? <==> SaysSomething(row, key)
  {
    var fields := row.payload.value;
    if key in fields && fields[key].Text? && fields[key].s != "" {
      assert Says(row, key, fields[key].s);
    }
  }

  /** A row asks for something exactly when it is one of the five kinds and, but for grants, says whom. */
  lemma AsksIffLegible(row: Row)
    ensures RevocationOf(row).Some? <==>
            && row.payload.Some?
            && (row.name == "grant.revoked"
                || (row.name in SESSION_ROWS && SaysSomething(row, "sessionId"))
                || (row.name in MEMBER_ROWS && SaysSomething(row, "userId")))
  {
    if row.payload.Some? {
      TextIsSaid(row, "sessionId", "");
      TextIsSaid(row, "userId", "");
    }
  }

  /** Which rows ask for which message. */
  lemma AsksForExactly(row: Row, message: Message)
    ensures RevocationOf(row) == Some(message) <==>
            match message
            case EndSession(session, reason) =>
              && Says(row, "sessionId", session)
              && row.name == (if reason == SessionRevoked then "session.revoked" else "session.token_reuse_detected")
            case MemberRemoved(org, user) => row.name == "member.removed" && org == row.org && Says(row, "userId", user)
            case RecheckUser(org, user) =>
              && org == row.org
              && ((row.name == "member.role_changed" && Says(row, "userId", user))
                  || (row.name == "grant.revoked" && !IsTeamGrant(row) && Says(row, "subjectId", user)))
            case RecheckOrg(org) =>
              && org == row.org && row.name == "grant.revoked" && row.payload.Some?
              && (IsTeamGrant(row) || !SaysSomething(row, "subjectId"))
  {
    if row.payload.Some? {
      var text := if message.EndSession? then message.session else if message.RecheckOrg? then "" else message.user;
      TextIsSaid(row, "sessionId", text);
      TextIsSaid(row, "userId", text);
      TextIsSaid(row, "subjectId", text);
    }
  }

  /** Whom a membership or grant row is about: the user it names; a grant to a team, or to nobody legible, is about everyone. */
  ghost predicate IsSubject(row: Row, user: User) {
    if row.name == "grant.revoked" then
      row.payload.Some? && (IsTeamGrant(row) || !SaysSomething(row, "subjectId") || Says(row, "subjectId", user))
    else row.name in MEMBER_ROWS && Says(row, "userId", user)
  }

  /** A revoked grant never goes unnoticed, and no row puts anyone's rooms in question but its subjects'. */
  lemma RevocationConcernsItsSubject(row: Row, user: User, org: Org)
    ensures RevocationOf(row).Some? && Names(RevocationOf(row).value, user, org) <==> org == row.org && IsSubject(row, user)
    ensures RevocationOf(row).Some? ==> (RevocationOf(row).value.MemberRemoved? <==> row.name == "member.removed")
  {
    if row.payload.Some? {
      TextIsSaid(row, "userId", user);
      TextIsSaid(row, "subjectId", user);
    }
  }
}
