/**
  The documents of the issue tracker (Shared.Models and Shared.Models.DTOs), as values.
  Each entity carries the base-class fields it needs from Entity: its `Id`, `Archived` and
  `ArchivedBy`; an issue also carries its creation time.
*/
module Models {
  import opened Store

  datatype User = User(id: Id, name: string, email: string)

  /** UserDto; `UserDto.Empty` has all three fields empty. */
  datatype UserDto = UserDto(id: Id, name: string, email: string)

  const EmptyUserDto := UserDto("", "", "")

  /** `new UserDto(user)` */
  function UserDtoOf(u: User): (d: UserDto)
    ensures d.id == u.id && d.name == u.name && d.email == u.email
  {
    UserDto(u.id, u.name, u.email)
  }

  datatype CategoryDto = CategoryDto(categoryName: string, categoryDescription: string)

  datatype StatusDto = StatusDto(statusName: string, statusDescription: string)

  /** The issue a comment belongs to, as the comment stores it. */
  datatype IssueDto = IssueDto(id: Id, title: string, description: string, author: UserDto,
                               category: CategoryDto, status: StatusDto)

  datatype Comment = Comment(
    id: Id,
    title: string,
    description: string,
    issue: IssueDto,
    author: UserDto,
    userVotes: set<string>,
    isAnswer: bool,
    answerSelectedBy: UserDto,
    archived: bool,
    archivedBy: UserDto)

  datatype Issue = Issue(
    id: Id,
    createdOn: Timestamp,
    title: string,
    description: string,
    category: CategoryDto,
    author: UserDto,
    issueStatus: StatusDto,
    approvedForRelease: bool,
    rejected: bool,
    archived: bool,
    archivedBy: UserDto)

  datatype Category = Category(id: Id, categoryName: string, categoryDescription: string,
                               archived: bool, archivedBy: UserDto)

  datatype Status = Status(id: Id, statusName: string, statusDescription: string,
                           archived: bool, archivedBy: UserDto)

  /** `new StatusDto(status)` */
  function StatusDtoOf(s: Status): (d: StatusDto)
    ensures d.statusName == s.statusName && d.statusDescription == s.statusDescription
  {
    StatusDto(s.statusName, s.statusDescription)
  }

  function CommentKey(c: Comment): Id { c.id }
  function IssueKey(i: Issue): Id { i.id }
  function CategoryKey(c: Category): Id { c.id }
  function StatusKey(s: Status): Id { s.id }
}
