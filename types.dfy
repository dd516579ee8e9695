/**
 The task record and the enumerations the dashboard works over
 (types.ts). Each enumeration member carries the display text that the
 source stores as the enum's string value; the CSV export writes that text.
 */
module TaskTypes {

  datatype Option<+T> = None | Some(value: T)

  /** Workflow status of a task: exactly three values. */
  datatype TaskStatus = Pending | InProgress | Completed

  /** Priority of a task. */
  datatype TaskPriority = Low | Medium | High

  /**
   The board roles. `All` is the filter sentinel; it is a member of the same
   enumeration in the source, so nothing in the type stops a task from
   carrying it.
   */
  datatype DirectorRole = All | Presidency | Treasury | Patrimony | Social | Secretariat

  /**
   A task row. The three recurrence fields are optional in the source and are
   carried here unchanged; no operation of the model reads them.
   */
  datatype Task = Task(
    id: int,
    status: TaskStatus,
    priority: TaskPriority,
    deadline: string,
    assignee: string,
    role: DirectorRole,
    task: string,
    notes: string,
    isRecurring: Option<bool>,
    recurringDay: Option<int>,
    leadDays: Option<int>
  )

  /** The string value of each status. */
  function StatusText(s: TaskStatus): (r: string)
    ensures |r| > 0
  {
    match s
    case Pending => "Pendente"
    case InProgress => "Em Andamento"
    case Completed => "Concluído"
  }

  /** The string value of each priority. */
  function PriorityText(p: TaskPriority): (r: string)
    ensures |r| > 0
  {
    match p
    case Low => "Baixa"
    case Medium => "Média"
    case High => "Alta"
  }

  /** The string value of each role, the sentinel included. */
  function RoleText(d: DirectorRole): (r: string)
    ensures |r| > 0
  {
    match d
    case All => "Todos"
    case Presidency => "Presidência"
    case Treasury => "Tesouraria"
    case Patrimony => "Patrimônio"
    case Social => "Social/Eventos"
    case Secretariat => "Secretaria"
  }

  /** The four summary counters (AppStats in types.ts). */
  datatype AppStats = AppStats(total: nat, pending: nat, completed: nat, inProgress: nat)
}
