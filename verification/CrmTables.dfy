/** The CRM rows the notification layer reads and writes. */
module CrmTables {
  import opened Prelude
  import opened CanonicalJson

  datatype Channel = InApp | Email

  function ChannelCode(c: Channel): int {
    match c case InApp => 1 case Email => 2
  }

  datatype Category = Transactional | Informational

  const MODE_OFF := 3

  datatype AppUser = AppUser(
    authId: string, email: string, locale: Option<string>, firstName: Option<string>, lastName: Option<string>)

  /** The primary key of `notification_preference`; the empty prefix is the default row. */
  datatype PreferenceKey = PreferenceKey(user: int, prefix: string, channel: Channel)

  /** The primary key of `community_user`. */
  datatype MemberKey = MemberKey(community: int, user: int)

  /** The tables the notification layer only reads. */
  datatype Directory = Directory(
    users: map<int, AppUser>, members: map<MemberKey, string>, preferences: map<PreferenceKey, int>)

  datatype Notification = Notification(id: int, community: Option<int>, user: int, kind: string, data: Json)

  datatype Message = Message(
    notification: Option<int>, community: Option<int>, channel: Channel, recipient: string,
    recipientName: Option<string>, locale: string, kind: string, category: Category, data: Json, dedupeKey: string)

  /** The tables it writes, and the audit rows a caller may have staged in the same transaction. */
  datatype Outbox = Outbox(notifications: seq<Notification>, messages: seq<Message>, audit: seq<string>)

  datatype Target =
    | UserTarget(user: int, community: Option<int>)
    | UsersTarget(users: seq<int>, community: Option<int>)
    | CommunityTarget(id: int, roles: Option<seq<string>>, excludeAuthId: Option<string>)

  datatype Publication = Publication(
    kind: string, target: Target, category: Category, channels: seq<Channel>, data: Option<Json>, dedupeKey: Option<string>)

  /** A staged realtime hint: whom to tell, about which community. */
  datatype Hint = Hint(users: seq<int>, community: Option<int>)

  /** The statements sent to the CRM database, by what they are for. */
  datatype CrmCall =
    | ResolveUser | FindMembers | FindPreferences | OpenSavepoint
    | InsertNotifications | FindContacts | InsertOutbound | ReleaseSavepoint
    | RollbackToSavepoint
    | FindEmails | FindWriter | InsertAudit
}
