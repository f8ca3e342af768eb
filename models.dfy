/** The RepairRequest record, its dictionary form (to_dict / from_dict) and
    the status and device vocabularies (src/models.py). */
module Models {
  import opened Common
  import opened Timestamps

  // Request statuses, in workflow order.
  const New := "Новая"
  const InProgress := "В процессе"
  const WaitingForParts := "Ожидание запчастей"
  const ReadyForPickup := "Готова к выдаче"
  const Completed := "Завершена"

  /** STATUS_CHOICES: (stored value, label shown). */
  const StatusChoices: seq<(string, string)> := [
    (New, "Новая"),
    (InProgress, "В процессе ремонта"),
    (WaitingForParts, "Ожидание запчастей"),
    (ReadyForPickup, "Готова к выдаче"),
    (Completed, "Завершена")
  ]

  const DeviceTypes: seq<string> := [
    "Холодильник",
    "Стиральная машина",
    "Плита",
    "Микроволновая печь",
    "Посудомоечная машина",
    "Телевизор",
    "Кондиционер",
    "Другое"
  ]

  /** The statuses whose assignment stamps completion_date in the store. */
  predicate IsCompletionStatus(status: string)
  {
    status == ReadyForPickup || status == Completed
  }

  /** The statuses that stamp completion_date are exactly the last two
      status choices. */
  lemma CompletionStatusesAreLastChoices(status: string)
    ensures IsCompletionStatus(status) <==> status in [StatusChoices[3].0, StatusChoices[4].0]
  {
  }

  datatype RepairRequest = RepairRequest(
    id: Option<int>,
    createdDate: Option<DateTime>,
    deviceType: string,
    deviceModel: string,
    problemDescription: string,
    clientName: string,
    clientPhone: string,
    status: string,
    masterName: Option<string>,
    completionDate: Option<DateTime>,
    updatedDate: Option<DateTime>)

  /** RepairRequest(): the dataclass defaults (there is no deadline field). */
  const DefaultRequest := RepairRequest(None, None, "", "", "", "", "", New, None, None, None)

  predicate ValidStamp(t: Option<DateTime>)
  {
    t.Some? ==> ValidDateTime(t.value)
  }

  /** A record whose datetimes Python's datetime could hold (whole seconds). */
  predicate ValidRequest(r: RepairRequest)
  {
    ValidStamp(r.createdDate) && ValidStamp(r.completionDate) && ValidStamp(r.updatedDate)
  }

  /** The values a to_dict / from_dict dictionary holds. */
  datatype Value = Null | Int(i: int) | Str(s: string)

  /** The keys to_dict emits and from_dict reads; from_dict ignores any
      other key, so a dictionary is modelled on these alone. */
  datatype Key = Id | CreatedDate | DeviceType | DeviceModel | ProblemDescription
               | ClientName | ClientPhone | Status | MasterName | CompletionDate | UpdatedDate

  /** The Python key text of each key. */
  function KeyName(k: Key): string
  {
    match k
    case Id => "id"
    case CreatedDate => "created_date"
    case DeviceType => "device_type"
    case DeviceModel => "device_model"
    case ProblemDescription => "problem_description"
    case ClientName => "client_name"
    case ClientPhone => "client_phone"
    case Status => "status"
    case MasterName => "master_name"
    case CompletionDate => "completion_date"
    case UpdatedDate => "updated_date"
  }

  type Record = map<Key, Value>

  predicate IsStampKey(k: Key) { k == CreatedDate || k == CompletionDate || k == UpdatedDate }

  function StampValue(t: Option<DateTime>): Value
    requires ValidStamp(t)
  {
    match t case Some(v) => Str(FormatDateTime(v)) case None => Null
  }

  const AllKeys: set<Key> := {
    Id, CreatedDate, DeviceType, DeviceModel, ProblemDescription,
    ClientName, ClientPhone, Status, MasterName, CompletionDate, UpdatedDate
  }

  /** The value to_dict puts under key k. */
  function FieldValue(r: RepairRequest, k: Key): Value
    requires ValidRequest(r)
  {
    match k
    case Id => (match r.id case Some(i) => Int(i) case None => Null)
    case CreatedDate => StampValue(r.createdDate)
    case DeviceType => Str(r.deviceType)
    case DeviceModel => Str(r.deviceModel)
    case ProblemDescription => Str(r.problemDescription)
    case ClientName => Str(r.clientName)
    case ClientPhone => Str(r.clientPhone)
    case Status => Str(r.status)
    case MasterName => (match r.masterName case Some(m) => Str(m) case None => Null)
    case CompletionDate => StampValue(r.completionDate)
    case UpdatedDate => StampValue(r.updatedDate)
  }

  /** RepairRequest.to_dict(): always all 11 keys; each datetime as
      "%Y-%m-%d %H:%M:%S" text, or None when absent. */
  function ToDict(r: RepairRequest): (d: Record)
    requires ValidRequest(r)
    ensures forall k: Key :: k in d
    ensures forall k :: IsStampKey(k) ==> d[k].Null? || (d[k].Str? && |d[k].s| == 19)
  {
    EveryKey();
    map k | k in AllKeys :: FieldValue(r, k)
  }

  lemma EveryKey()
    ensures forall k: Key :: k in AllKeys
  {
    forall k: Key ensures k in AllKeys {
      match k
      case Id =>
      case CreatedDate =>
      case DeviceType =>
      case DeviceModel =>
      case ProblemDescription =>
      case ClientName =>
      case ClientPhone =>
      case Status =>
      case MasterName =>
      case CompletionDate =>
      case UpdatedDate =>
    }
  }

  /** What from_dict raises: ValueError from strptime on malformed text,
      TypeError from strptime on a truthy non-text value. TypeMismatch is
      not raised by Python: it marks a value the record's typed fields
      cannot hold (a non-text value for a text field, a non-integer id),
      which Python would store as it is. */
  datatype Error = ValueError(key: Key) | TypeError(key: Key) | TypeMismatch(key: Key)

  datatype Result<T> = Ok(value: T) | Err(error: Error) {
    predicate IsFailure() { Err? }

    function PropagateFailure<U>(): Result<U>
      requires Err?
    {
      Err(error)
    }

    function Extract(): T
      requires Ok?
    {
      value
    }
  }

  /** `if data.get(key): datetime.strptime(data[key], ...)`: a missing or
      falsy value (None, "", 0) leaves the field None. */
  function StampField(d: Record, key: Key): (r: Result<Option<DateTime>>)
    ensures r.Ok? ==> ValidStamp(r.value)
  {
    if key !in d then Ok(None)
    else match d[key]
      case Null => Ok(None)
      case Int(n) => if n == 0 then Ok(None) else Err(TypeError(key))
      case Str(s) =>
        if s == "" then Ok(None)
        else match ParseDateTime(s)
          case Some(t) => Ok(Some(t))
          case None => Err(ValueError(key))
  }

  /** data.get(key, default) for a text field. */
  function TextField(d: Record, key: Key, default: string): Result<string>
  {
    if key !in d then Ok(default)
    else match d[key]
      case Str(s) => Ok(s)
      case _ => Err(TypeMismatch(key))
  }

  /** data.get(key) for an optional text field (master_name). */
  function OptionalTextField(d: Record, key: Key): Result<Option<string>>
  {
    if key !in d then Ok(None)
    else match d[key]
      case Null => Ok(None)
      case Str(s) => Ok(Some(s))
      case _ => Err(TypeMismatch(key))
  }

  /** data.get('id'). */
  function IdField(d: Record): Result<Option<int>>
  {
    if Id !in d then Ok(None)
    else match d[Id]
      case Null => Ok(None)
      case Int(i) => Ok(Some(i))
      case _ => Err(TypeMismatch(Id))
  }

  /** RepairRequest.from_dict(data), fields in the order Python assigns them. */
  function FromDict(d: Record): (r: Result<RepairRequest>)
    ensures r.Ok? ==> ValidRequest(r.value)
  {
    var id :- IdField(d);
    var created :- StampField(d, CreatedDate);
    var deviceType :- TextField(d, DeviceType, "");
    var deviceModel :- TextField(d, DeviceModel, "");
    var problem :- TextField(d, ProblemDescription, "");
    var clientName :- TextField(d, ClientName, "");
    var clientPhone :- TextField(d, ClientPhone, "");
    var status :- TextField(d, Status, New);
    var masterName :- OptionalTextField(d, MasterName);
    var completion :- StampField(d, CompletionDate);
    var updated :- StampField(d, UpdatedDate);
    Ok(RepairRequest(id, created, deviceType, deviceModel, problem, clientName, clientPhone,
                     status, masterName, completion, updated))
  }

  lemma StampRoundTrip(d: Record, key: Key, t: Option<DateTime>)
    requires ValidStamp(t)
    requires key in d && d[key] == StampValue(t)
    ensures StampField(d, key) == Ok(t)
  {
    if t.Some? {
      ParseFormatDateTime(t.value);
    }
  }

  /** from_dict(to_dict(r)) == r for every record with whole-second datetimes. */
  lemma FromDictToDict(r: RepairRequest)
    requires ValidRequest(r)
    ensures FromDict(ToDict(r)) == Ok(r)
  {
    var d := ToDict(r);
    assert IdField(d) == Ok(r.id);
    StampRoundTrip(d, CreatedDate, r.createdDate);
    assert TextField(d, DeviceType, "") == Ok(r.deviceType);
    assert TextField(d, DeviceModel, "") == Ok(r.deviceModel);
    assert TextField(d, ProblemDescription, "") == Ok(r.problemDescription);
    assert TextField(d, ClientName, "") == Ok(r.clientName);
    assert TextField(d, ClientPhone, "") == Ok(r.clientPhone);
    assert TextField(d, Status, New) == Ok(r.status);
    assert OptionalTextField(d, MasterName) == Ok(r.masterName);
    StampRoundTrip(d, CompletionDate, r.completionDate);
    StampRoundTrip(d, UpdatedDate, r.updatedDate);
  }

  /** from_dict fills every absent key with the dataclass default. */
  lemma FromEmptyDict()
    ensures FromDict(map[]) == Ok(DefaultRequest)
  {
  }

  /** A malformed non-empty date text makes from_dict raise ValueError. */
  lemma FromDictMalformedDate(d: Record)
    requires CreatedDate in d && d[CreatedDate].Str?
    requires d[CreatedDate].s != "" && ParseDateTime(d[CreatedDate].s).None?
    requires IdField(d).Ok?
    ensures FromDict(d) == Err(ValueError(CreatedDate))
  {
  }
}
