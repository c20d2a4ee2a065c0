/** The stored grievance record and its parts (`server/models/Grievance.js`),
    restricted to the fields the grievance routes read or write. */
module GrievanceRecords {
  import opened Wrappers
  import C = ComplaintClassification
  import S = SentimentAnalysis

  /** The user roles of the comment and status-update schemas. */
  datatype Role = Citizen | DepartmentAdmin | SuperAdmin

  /** The status enumeration shared by the record and its history. */
  datatype Status = Pending | InProgress | Resolved | Rejected

  datatype Comment = Comment(userId: string, userRole: Role, text: string, createdAt: int)

  datatype StatusUpdate = StatusUpdate(
    status: Status,
    updatedBy: string,
    updatedByRole: Role,
    comments: Option<string>,
    updatedAt: int)

  /** A saved record. The schema declares no `state`, `district` or
      `address` path, so under the default strict mode those body fields are
      not part of the document. */
  datatype Grievance = Grievance(
    trackingId: string,
    userId: string,
    subject: string,
    description: string,
    originalLanguage: string,
    department: C.Department,
    tags: seq<string>,
    confidenceScore: real,
    urgency: S.Urgency,
    status: Status,
    comments: seq<Comment>,
    statusHistory: seq<StatusUpdate>,
    createdAt: int,
    updatedAt: int)

  /** `req.user._id`: a database object id, which is never empty. */
  type UserId = s: string | |s| > 0 witness "u"

  /** The authenticated caller (`req.user`). */
  datatype User = User(id: UserId, role: Role)

  predicate IsAdmin(r: Role) {
    r == DepartmentAdmin || r == SuperAdmin
  }
}
