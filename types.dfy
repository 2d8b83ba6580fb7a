/**
 * The entities of the collaboration workspace (types.ts). They carry no
 * behaviour of their own; every date string of the original is an integer
 * instant here.
 */
module Types {

  datatype Option<+T> = None | Some(value: T)

  /** The three roles a membership row can hold. */
  datatype Role = Owner | SubAdmin | Member

  /** A user as the application sees it; `password` is absent when the row
      was read through a query that does not select that column. */
  datatype User = User(id: string, name: string, email: string, password: Option<string>)

  /** A team's membership entry, without its team id. */
  datatype TeamMember = TeamMember(userId: string, role: Role)

  datatype Team = Team(id: string, name: string, ownerId: string, members: seq<TeamMember>)

  datatype Meeting = Meeting(id: string, teamId: string, title: string, meetLink: string,
                             dateTime: int, createdBy: string)

  datatype Document = Document(id: string, teamId: string, name: string, content: string,
                               passwordProtected: bool, password: Option<string>,
                               createdBy: string)

  /** The five kinds of locker item. */
  datatype FileType = Pdf | Image | Video | Link | Other

  datatype FileLockerItem = FileLockerItem(id: string, teamId: string, name: string,
                                           kind: FileType, url: string, createdBy: string)

  /** `channelId` is "public" or the user id of a direct-message channel. */
  datatype ChatMessage = ChatMessage(id: string, teamId: string, channelId: string,
                                     senderId: string, content: string, timestamp: int)

  const PublicChannel: string := "public"
}
