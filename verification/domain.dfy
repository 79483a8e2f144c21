/** Types shared by the API services and the dashboard: task and role enums,
    the task record, the error taxonomy of the services, and audit call shapes. */
module Domain {

  datatype Option<+T> = None | Some(value: T) {
    function GetOr(default: T): T {
      match this
      case Some(v) => v
      case None => default
    }
  }

  datatype Result<+R> = Ok(value: R) | Err(error: Error)

  /** Why a BadRequest was raised by the organization service. */
  datatype BadRequestReason = ParentNotFound | DepthExceeded | SelfParent

  /** NestJS exceptions thrown by the services. */
  datatype Error = NotFound | Forbidden | BadRequest(reason: BadRequestReason)

  /** The three board columns ('todo', 'in-progress', 'done'). */
  datatype TaskStatus = Todo | InProgress | Done

  /** Caller role. `Other` stands for any role value outside the enum,
      which the scope check must refuse. */
  datatype Role = Owner | Admin | Viewer | Other(name: string)

  /** A row of the tasks table (and the task JSON the dashboard receives). */
  datatype Task = Task(
    id: int,
    title: string,
    description: Option<string>,
    category: Option<string>,
    status: TaskStatus,
    orderIndex: int,
    ownerId: int,
    organizationId: int)

  /** A `{from, to}` pair of the update diff. */
  datatype Change<T> = Change(from: T, to: T)

  /** The `changes` object built by the task update: one optional entry per field. */
  datatype TaskDiff = TaskDiff(
    title: Option<Change<string>>,
    description: Option<Change<Option<string>>>,
    category: Option<Change<Option<string>>>,
    status: Option<Change<TaskStatus>>,
    orderIndex: Option<Change<int>>)
  {
    /** `Object.keys(changes).length === 0` */
    predicate IsEmpty() {
      title.None? && description.None? && category.None? && status.None? && orderIndex.None?
    }
  }

  /** The `meta` argument of an audit record. */
  datatype Meta = EmptyMeta | TitleStatus(title: string, status: TaskStatus) | Changes(changes: TaskDiff)

  /** One call of the audit sink's `record(userId, action, resourceType, resourceId, meta)`. */
  datatype AuditCall = AuditCall(
    userId: Option<int>,
    action: string,
    resourceType: string,
    resourceId: Option<int>,
    meta: Meta)
}
