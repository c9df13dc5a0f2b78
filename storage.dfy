/**
 * The case record normaliser of js/storage.js.
 *
 * Every case the tracker reads, from its own storage or from an imported backup, goes through
 * `normalizeCaseObject`: free text is sanitised, enumerations are whitelisted, counts become
 * canonical decimal strings, flags become booleans, legacy single phone and email fields
 * become one-element contact lists, and missing ids are generated. Ids are generated from the
 * clock and a random number; here the generator is a parameter `newId(kind, position)`, where
 * `kind` is "case", "phone", "email" or "charge" and `position` the entry's index in its list.
 */
module Storage {
  import opened Wrappers
  import opened JsValues
  import opened Validation
  import opened Calculations

  datatype Phone = Phone(number: string, note: string, id: string)
  datatype Email = Email(address: string, note: string, id: string)
  datatype NoteEntry = NoteEntry(date: string, text: string)
  datatype ExWindow = ExWindow(start: string, end: string, reason: string, arguable: bool)
  datatype Todo = Todo(description: string, deadline: string, completed: bool)
  datatype Charge = Charge(id: string, name: string, statute: string, chargeClass: string,
                           isPrimaryCharge: bool, dateAdded: string)

  /**
   * A normalised case. The date fields are copied as they were given (`raw.startDate || ''`),
   * so they stay JSON values.
   */
  datatype CaseRecord = CaseRecord(
    id: string,
    clientName: string,
    docketNumber: string,
    chargeLevel: string,
    startDate: Json,
    excludedDays: string,
    definitelyExcludedDays: string,
    arguablyExcludedDays: string,
    notes: string,
    nextCourtDate: Json,
    nextCourtAppearanceType: string,
    courtPart: string,
    assignedAda: string,
    noteEntries: seq<NoteEntry>,
    warrant: bool,
    warrantDate: Json,
    closed: bool,
    clockStopped: bool,
    frozenTotalDays: Option<int>,
    cocFiled: bool,
    cocDate: Json,
    clientPhone: string,
    clientEmail: string,
    phones: seq<Phone>,
    emails: seq<Email>,
    address: string,
    arraignmentDate: Json,
    exWindows: seq<ExWindow>,
    todos: seq<Todo>,
    charges: seq<Charge>)

  /** The id generator: a fresh id for an entry of the given kind at the given position. */
  type IdGen = (string, nat) -> string

  // ---------------------------------------------------------------------------
  // Field coercions
  // ---------------------------------------------------------------------------

  /** `v && v.key` */
  function Field(v: Json, key: string): Json
  {
    And(v, Get(v, key))
  }

  /** `sanitizeString(v || '')` */
  function TextOr(v: Json): string
  {
    SanitizeValue(Or(v, Str("")))
  }

  /** `v ? String(v) : ''` */
  function StringOr(v: Json): string
  {
    if Truthy(v) then ToJsString(v) else ""
  }

  /** `v ? String(v) : <generated>` */
  function IdOr(v: Json, newId: IdGen, kind: string, position: nat): string
  {
    if Truthy(v) then ToJsString(v) else newId(kind, position)
  }

  /** `['felony', 'classA', 'classB', 'violation'].includes(v) ? v : ''` */
  function WhitelistLevel(v: Json): (level: string)
    ensures level == "" || LevelOf(level).Some?
    ensures level != "" ==> v == Str(level)
  {
    if v.Str? && LevelOf(v.s).Some? then v.s else ""
  }

  /** The integer `Number(v || 0) || 0` gives: the value of a numeric `v`, 0 otherwise. */
  function CountValue(v: Json): int
  {
    var n := ToNumber(Or(v, Num(0)));
    if n.Int? then n.value else 0
  }

  /** `String(Number(v || 0) || 0)` */
  function CoerceCount(v: Json): (s: string)
  {
    IntToString(CountValue(v))
  }

  /** `frozenTotalDays`: a number or a numeric string gives its value, anything else null. */
  function FrozenDays(v: Json): (days: Option<int>)
    ensures !(v.Num? || v.Str?) ==> days.None?
    ensures v.Num? ==> days == Some(v.n)
    ensures v.Str? ==> (days.Some? <==> StrToNumber(v.s).Int?)
    ensures v.Str? && days.Some? ==> days.value == StrToNumber(v.s).value
  {
    match v
    case Num(n) => Some(n)
    case Str(s) => if StrToNumber(s).Int? then Some(StrToNumber(s).value) else None
    case _ => None
  }

  // ---------------------------------------------------------------------------
  // List entries
  // ---------------------------------------------------------------------------

  function NormalizePhone(p: Json, newId: IdGen, position: nat): Phone
  {
    Phone(TextOr(Field(p, "number")), TextOr(Field(p, "note")), IdOr(Field(p, "id"), newId, "phone", position))
  }

  function NormalizeEmail(e: Json, newId: IdGen, position: nat): Email
  {
    Email(TextOr(Field(e, "address")), TextOr(Field(e, "note")), IdOr(Field(e, "id"), newId, "email", position))
  }

  function NormalizeNoteEntry(n: Json): NoteEntry
  {
    NoteEntry(TextOr(Field(n, "date")), TextOr(Field(n, "text")))
  }

  function NormalizeWindow(w: Json): ExWindow
  {
    ExWindow(StringOr(Field(w, "start")), StringOr(Field(w, "end")), TextOr(Field(w, "reason")),
             Truthy(Field(w, "arguable")))
  }

  function NormalizeTodo(t: Json): Todo
  {
    Todo(TextOr(Field(t, "description")), StringOr(Field(t, "deadline")),
         Truthy(And(t, Or(Get(t, "completed"), Get(t, "done")))))
  }

  function NormalizeCharge(c: Json, newId: IdGen, position: nat): Charge
  {
    Charge(IdOr(Field(c, "id"), newId, "charge", position), TextOr(Field(c, "name")),
           TextOr(Field(c, "statute")), WhitelistLevel(Field(c, "class")),
           Truthy(Field(c, "isPrimaryCharge")), StringOr(Field(c, "dateAdded")))
  }

  /** `Array.isArray(v) ? v.map(f) : []` for each kind of list. */
  function Phones(v: Json, newId: IdGen): seq<Phone>
  {
    if v.Arr? then seq(|v.items|, i requires 0 <= i < |v.items| => NormalizePhone(v.items[i], newId, i)) else []
  }

  function Emails(v: Json, newId: IdGen): seq<Email>
  {
    if v.Arr? then seq(|v.items|, i requires 0 <= i < |v.items| => NormalizeEmail(v.items[i], newId, i)) else []
  }

  function NoteEntries(v: Json): seq<NoteEntry>
  {
    if v.Arr? then seq(|v.items|, i requires 0 <= i < |v.items| => NormalizeNoteEntry(v.items[i])) else []
  }

  function Windows(v: Json): seq<ExWindow>
  {
    if v.Arr? then seq(|v.items|, i requires 0 <= i < |v.items| => NormalizeWindow(v.items[i])) else []
  }

  function Todos(v: Json): seq<Todo>
  {
    if v.Arr? then seq(|v.items|, i requires 0 <= i < |v.items| => NormalizeTodo(v.items[i])) else []
  }

  function Charges(v: Json, newId: IdGen): seq<Charge>
  {
    if v.Arr? then seq(|v.items|, i requires 0 <= i < |v.items| => NormalizeCharge(v.items[i], newId, i)) else []
  }

  /** The phone list: an array entry by entry, else the legacy phone as one entry, else none. */
  function PhoneList(v: Json, clientPhone: string, newId: IdGen): seq<Phone>
  {
    if v.Arr? then Phones(v, newId)
    else if clientPhone != "" then [Phone(clientPhone, "", "phone-legacy")]
    else []
  }

  /** The email list, by the same rule as the phone list. */
  function EmailList(v: Json, clientEmail: string, newId: IdGen): seq<Email>
  {
    if v.Arr? then Emails(v, newId)
    else if clientEmail != "" then [Email(clientEmail, "", "email-legacy")]
    else []
  }

  // ---------------------------------------------------------------------------
  // normalizeCaseObject and validateAndNormalizeImportedCases
  // ---------------------------------------------------------------------------

  /**
   * `normalizeCaseObject(raw)`: null for anything but an object (arrays are objects too);
   * otherwise the canonical record.
   */
  function NormalizeCaseObject(raw: Json, newId: IdGen): (r: Option<CaseRecord>)
    ensures r.Some? <==> raw.Obj? || raw.Arr?
  {
    if !Truthy(raw) || !(raw.Obj? || raw.Arr?) then None
    else
      var clientPhone := TextOr(Get(raw, "clientPhone"));
      var clientEmail := TextOr(Get(raw, "clientEmail"));
      Some(CaseRecord(
        id := IdOr(Get(raw, "id"), newId, "case", 0),
        clientName := TextOr(Get(raw, "clientName")),
        docketNumber := TextOr(Get(raw, "docketNumber")),
        chargeLevel := WhitelistLevel(Get(raw, "chargeLevel")),
        startDate := Or(Get(raw, "startDate"), Str("")),
        excludedDays := CoerceCount(Get(raw, "excludedDays")),
        definitelyExcludedDays := CoerceCount(Get(raw, "definitelyExcludedDays")),
        arguablyExcludedDays := CoerceCount(Get(raw, "arguablyExcludedDays")),
        notes := TextOr(Get(raw, "notes")),
        nextCourtDate := Or(Get(raw, "nextCourtDate"), Str("")),
        nextCourtAppearanceType := TextOr(Get(raw, "nextCourtAppearanceType")),
        courtPart := TextOr(Get(raw, "courtPart")),
        assignedAda := TextOr(Get(raw, "assignedAda")),
        noteEntries := NoteEntries(Get(raw, "noteEntries")),
        warrant := Truthy(Get(raw, "warrant")),
        warrantDate := Or(Get(raw, "warrantDate"), Str("")),
        closed := Truthy(Get(raw, "closed")),
        clockStopped := Truthy(Get(raw, "clockStopped")),
        frozenTotalDays := FrozenDays(Get(raw, "frozenTotalDays")),
        cocFiled := Truthy(Get(raw, "cocFiled")),
        cocDate := Or(Get(raw, "cocDate"), Str("")),
        clientPhone := clientPhone,
        clientEmail := clientEmail,
        phones := PhoneList(Get(raw, "phones"), clientPhone, newId),
        emails := EmailList(Get(raw, "emails"), clientEmail, newId),
        address := TextOr(Get(raw, "address")),
        arraignmentDate := Or(Get(raw, "arraignment_date"), Str("")),
        exWindows := Windows(Get(raw, "exWindows")),
        todos := Todos(Get(raw, "todos")),
        charges := Charges(Get(raw, "charges"), newId)))
  }

  /** `xs.filter(Boolean)` on a list of optional values: the present ones, in order. */
  function FilterSome<T>(xs: seq<Option<T>>): (r: seq<T>)
    ensures |r| <= |xs|
  {
    if xs == [] then []
    else if xs[0].Some? then [xs[0].value] + FilterSome(xs[1..])
    else FilterSome(xs[1..])
  }

  /** `xs.map(f)`, where `f` is also given the index. */
  function MapIndexed<A, B>(xs: seq<A>, f: (A, nat) -> B): (r: seq<B>)
  {
    seq(|xs|, i requires 0 <= i < |xs| => f(xs[i], i))
  }

  /** Mapping a list with one more element maps the shorter list, then the element at its index. */
  lemma MapIndexedSnoc<A, B>(xs: seq<A>, x: A, f: (A, nat) -> B)
    ensures MapIndexed(xs + [x], f) == MapIndexed(xs, f) + [f(x, |xs|)]
  {
    assert forall i :: 0 <= i < |xs| ==> (xs + [x])[i] == xs[i];
  }

  /** `normalizeCaseObject` as a mapper: the case at index `i` uses the id generator `newId(i)`. */
  function NormalizeAt(newId: nat -> IdGen): (Json, nat) -> Option<CaseRecord>
  {
    (raw: Json, i: nat) => NormalizeCaseObject(raw, newId(i))
  }

  /** `parsed.map(normalizeCaseObject)` */
  function NormalizeEach(items: seq<Json>, newId: nat -> IdGen): (r: seq<Option<CaseRecord>>)
    ensures |r| == |items|
    ensures forall i :: 0 <= i < |items| ==> r[i] == NormalizeCaseObject(items[i], newId(i))
  {
    MapIndexed(items, NormalizeAt(newId))
  }

  const UnsupportedFormat := "Unsupported backup format"

  /**
   * `validateAndNormalizeImportedCases(parsed)`: an array gives its normalised object entries
   * in order, a single object a one-case list, anything else the error "Unsupported backup
   * format". Each case has its own id generator, chosen by its position.
   */
  function ValidateAndNormalizeImportedCases(parsed: Json, newId: nat -> IdGen): (r: Result<seq<CaseRecord>, string>)
    ensures r.Failure? <==> !(parsed.Arr? || parsed.Obj?)
    ensures r.Failure? ==> r.error == UnsupportedFormat
    ensures parsed.Obj? ==> r == Success([NormalizeCaseObject(parsed, newId(0)).value])
  {
    if parsed.Arr? then Success(FilterSome(NormalizeEach(parsed.items, newId)))
    else if Truthy(parsed) && parsed.Obj? then
      match NormalizeCaseObject(parsed, newId(0))
      case Some(c) => Success([c])
      case None => Success([])
    else Failure(UnsupportedFormat)
  }

  // ---------------------------------------------------------------------------
  // What a normalised record guarantees
  // ---------------------------------------------------------------------------

  /** Sanitised text: at most 1000 characters, no markup and no control character. */
  predicate Clean(s: string)
  {
    |s| <= MaxLength && Safe(s)
  }

  /** A count as normalisation writes it: the decimal string of an integer. */
  predicate IsCountString(s: string)
  {
    StrToNumber(s).Int? && s == IntToString(StrToNumber(s).value)
  }

  predicate WhitelistedLevel(s: string)
  {
    s == "" || LevelOf(s).Some?
  }

  predicate CleanPhones(phones: seq<Phone>)
  {
    forall i :: 0 <= i < |phones| ==> Clean(phones[i].number) && Clean(phones[i].note)
  }

  predicate CleanEmails(emails: seq<Email>)
  {
    forall i :: 0 <= i < |emails| ==> Clean(emails[i].address) && Clean(emails[i].note)
  }

  predicate CleanNoteEntries(entries: seq<NoteEntry>)
  {
    forall i :: 0 <= i < |entries| ==> Clean(entries[i].date) && Clean(entries[i].text)
  }

  predicate CleanWindows(windows: seq<ExWindow>)
  {
    forall i :: 0 <= i < |windows| ==> Clean(windows[i].reason)
  }

  predicate CleanTodos(todos: seq<Todo>)
  {
    forall i :: 0 <= i < |todos| ==> Clean(todos[i].description)
  }

  predicate CleanCharges(charges: seq<Charge>)
  {
    forall i :: 0 <= i < |charges| ==>
      Clean(charges[i].name) && Clean(charges[i].statute) && WhitelistedLevel(charges[i].chargeClass)
  }

  predicate CleanEntries(c: CaseRecord)
  {
    && CleanPhones(c.phones) && CleanEmails(c.emails) && CleanNoteEntries(c.noteEntries)
    && CleanWindows(c.exWindows) && CleanTodos(c.todos) && CleanCharges(c.charges)
  }

  predicate CleanFields(c: CaseRecord)
  {
    && Clean(c.clientName) && Clean(c.docketNumber) && Clean(c.notes)
    && Clean(c.nextCourtAppearanceType) && Clean(c.courtPart) && Clean(c.assignedAda)
    && Clean(c.clientPhone) && Clean(c.clientEmail) && Clean(c.address)
  }

  /** What every normalised case satisfies. */
  predicate WellFormedCase(c: CaseRecord)
  {
    && CleanFields(c)
    && CleanEntries(c)
    && WhitelistedLevel(c.chargeLevel)
    && IsCountString(c.excludedDays)
    && IsCountString(c.definitelyExcludedDays)
    && IsCountString(c.arguablyExcludedDays)
  }

  lemma TextOrClean(v: Json)
    ensures Clean(TextOr(v))
  {
    SanitizeValueSafe(Or(v, Str("")));
  }

  /** The decimal string of an integer is a count string, and coercing it gives it back. */
  lemma CountStringReads(k: int)
    ensures IsCountString(IntToString(k))
    ensures CoerceCount(Str(IntToString(k))) == IntToString(k)
  {
    StrToNumberOfIntToString(k);
    assert |IntToString(k)| > 0;
  }

  /** A coerced count reads back as the value it was coerced to, and coercing it again changes nothing. */
  lemma CoerceCountReads(v: Json)
    ensures IsCountString(CoerceCount(v))
    ensures StrToNumber(CoerceCount(v)) == Int(CountValue(v))
    ensures CoerceCount(Str(CoerceCount(v))) == CoerceCount(v)
  {
    CountStringReads(CountValue(v));
    StrToNumberOfIntToString(CountValue(v));
  }

  /** A numeric value keeps its value; anything that does not read as a number becomes "0". */
  lemma CoerceCountValues(v: Json)
    ensures v.Num? ==> CoerceCount(v) == IntToString(v.n)
    ensures ToNumber(v).NaN? ==> CoerceCount(v) == "0"
  {
  }

  lemma PhonesClean(v: Json, newId: IdGen)
    ensures CleanPhones(Phones(v, newId))
  {
    forall i | 0 <= i < |Phones(v, newId)|
      ensures Clean(Phones(v, newId)[i].number) && Clean(Phones(v, newId)[i].note)
    {
      TextOrClean(Field(v.items[i], "number"));
      TextOrClean(Field(v.items[i], "note"));
    }
  }

  lemma EmailsClean(v: Json, newId: IdGen)
    ensures CleanEmails(Emails(v, newId))
  {
    forall i | 0 <= i < |Emails(v, newId)|
      ensures Clean(Emails(v, newId)[i].address) && Clean(Emails(v, newId)[i].note)
    {
      TextOrClean(Field(v.items[i], "address"));
      TextOrClean(Field(v.items[i], "note"));
    }
  }

  lemma NoteEntriesClean(v: Json)
    ensures CleanNoteEntries(NoteEntries(v))
  {
    forall i | 0 <= i < |NoteEntries(v)|
      ensures Clean(NoteEntries(v)[i].date) && Clean(NoteEntries(v)[i].text)
    {
      TextOrClean(Field(v.items[i], "date"));
      TextOrClean(Field(v.items[i], "text"));
    }
  }

  lemma WindowsClean(v: Json)
    ensures CleanWindows(Windows(v))
  {
    forall i | 0 <= i < |Windows(v)|
      ensures Clean(Windows(v)[i].reason)
    {
      TextOrClean(Field(v.items[i], "reason"));
    }
  }

  lemma TodosClean(v: Json)
    ensures CleanTodos(Todos(v))
  {
    forall i | 0 <= i < |Todos(v)|
      ensures Clean(Todos(v)[i].description)
    {
      TextOrClean(Field(v.items[i], "description"));
    }
  }

  lemma ChargesClean(v: Json, newId: IdGen)
    ensures CleanCharges(Charges(v, newId))
  {
    forall i | 0 <= i < |Charges(v, newId)|
      ensures Clean(Charges(v, newId)[i].name) && Clean(Charges(v, newId)[i].statute)
    {
      TextOrClean(Field(v.items[i], "name"));
      TextOrClean(Field(v.items[i], "statute"));
    }
  }

  lemma PhoneListClean(v: Json, clientPhone: string, newId: IdGen)
    requires Clean(clientPhone)
    ensures CleanPhones(PhoneList(v, clientPhone, newId))
  {
    PhonesClean(v, newId);
    assert Clean("");
  }

  lemma EmailListClean(v: Json, clientEmail: string, newId: IdGen)
    requires Clean(clientEmail)
    ensures CleanEmails(EmailList(v, clientEmail, newId))
  {
    EmailsClean(v, newId);
    assert Clean("");
  }

  /** Entry texts come out clean and charge classes whitelisted. */
  lemma EntriesClean(raw: Json, newId: IdGen)
    requires raw.Obj? || raw.Arr?
    ensures CleanEntries(NormalizeCaseObject(raw, newId).value)
  {
    TextOrClean(Get(raw, "clientPhone"));
    TextOrClean(Get(raw, "clientEmail"));
    PhoneListClean(Get(raw, "phones"), TextOr(Get(raw, "clientPhone")), newId);
    EmailListClean(Get(raw, "emails"), TextOr(Get(raw, "clientEmail")), newId);
    NoteEntriesClean(Get(raw, "noteEntries"));
    WindowsClean(Get(raw, "exWindows"));
    TodosClean(Get(raw, "todos"));
    ChargesClean(Get(raw, "charges"), newId);
  }

  /** Every case `normalizeCaseObject` returns is well formed. */
  lemma NormalizedIsWellFormed(raw: Json, newId: IdGen)
    requires raw.Obj? || raw.Arr?
    ensures WellFormedCase(NormalizeCaseObject(raw, newId).value)
  {
    FieldsClean(raw, newId);
    CountsWritten(raw, newId);
    EntriesClean(raw, newId);
  }

  /** The case's own text fields come out clean. */
  lemma FieldsClean(raw: Json, newId: IdGen)
    requires raw.Obj? || raw.Arr?
    ensures CleanFields(NormalizeCaseObject(raw, newId).value)
  {
    TextOrClean(Get(raw, "clientName"));
    TextOrClean(Get(raw, "docketNumber"));
    TextOrClean(Get(raw, "notes"));
    TextOrClean(Get(raw, "nextCourtAppearanceType"));
    TextOrClean(Get(raw, "courtPart"));
    TextOrClean(Get(raw, "assignedAda"));
    TextOrClean(Get(raw, "clientPhone"));
    TextOrClean(Get(raw, "clientEmail"));
    TextOrClean(Get(raw, "address"));
  }

  /** The three excluded-day counts come out as decimal strings, and the level whitelisted. */
  lemma CountsWritten(raw: Json, newId: IdGen)
    requires raw.Obj? || raw.Arr?
    ensures var c := NormalizeCaseObject(raw, newId).value;
      && WhitelistedLevel(c.chargeLevel)
      && IsCountString(c.excludedDays)
      && IsCountString(c.definitelyExcludedDays)
      && IsCountString(c.arguablyExcludedDays)
  {
    CoerceCountReads(Get(raw, "excludedDays"));
    CoerceCountReads(Get(raw, "definitelyExcludedDays"));
    CoerceCountReads(Get(raw, "arguablyExcludedDays"));
  }

  /** A known charge level is kept and anything else is dropped. */
  lemma ChargeLevelWhitelist(raw: Json, newId: IdGen)
    requires raw.Obj?
    ensures var c := NormalizeCaseObject(raw, newId).value;
      && (c.chargeLevel != "" ==> Get(raw, "chargeLevel") == Str(c.chargeLevel))
      && (forall l: Level :: Get(raw, "chargeLevel") == Str(LevelName(l)) ==> c.chargeLevel == LevelName(l))
  {
  }

  /** A present id is kept, as a string; only a missing one is generated. */
  lemma IdKeptOrGenerated(raw: Json, newId: IdGen)
    requires raw.Obj?
    ensures var c := NormalizeCaseObject(raw, newId).value;
      c.id == if Truthy(Get(raw, "id")) then ToJsString(Get(raw, "id")) else newId("case", 0)
  {
  }

  /** `v && v.key` is truthy exactly when `v` is an object whose `key` is truthy, and then it is that value. */
  lemma FieldOfObject(v: Json, key: string)
    ensures Truthy(Field(v, key)) <==> v.Obj? && Truthy(Get(v, key))
    ensures Truthy(Field(v, key)) ==> Field(v, key) == Get(v, key)
  {
  }

  /** A to-do is completed exactly when it is an object whose `completed` or legacy `done` is truthy. */
  lemma TodoCompletedIff(t: Json)
    ensures NormalizeTodo(t).completed <==> t.Obj? && (Truthy(Get(t, "completed")) || Truthy(Get(t, "done")))
  {
  }

  /** An excludable window is arguable exactly when it is an object with a truthy flag; missing ends are empty. */
  lemma WindowFields(w: Json)
    ensures NormalizeWindow(w).arguable <==> w.Obj? && Truthy(Get(w, "arguable"))
    ensures !(w.Obj? && Truthy(Get(w, "start"))) ==> NormalizeWindow(w).start == ""
    ensures !(w.Obj? && Truthy(Get(w, "end"))) ==> NormalizeWindow(w).end == ""
  {
    FieldOfObject(w, "arguable");
    FieldOfObject(w, "start");
    FieldOfObject(w, "end");
  }

  /**
   * The phone list: an array is normalised entry by entry; otherwise a non-empty legacy phone
   * becomes the one entry "phone-legacy"; otherwise the list is empty. Emails follow the same rule.
   */
  lemma ContactsMigrate(raw: Json, newId: IdGen)
    requires raw.Obj?
    ensures var c := NormalizeCaseObject(raw, newId).value;
      && (Get(raw, "phones").Arr? ==> PhonesFrom(c.phones, Get(raw, "phones").items, newId))
      && (!Get(raw, "phones").Arr? && c.clientPhone != "" ==> c.phones == [Phone(c.clientPhone, "", "phone-legacy")])
      && (!Get(raw, "phones").Arr? && c.clientPhone == "" ==> c.phones == [])
      && (Get(raw, "emails").Arr? ==> EmailsFrom(c.emails, Get(raw, "emails").items, newId))
      && (!Get(raw, "emails").Arr? && c.clientEmail != "" ==> c.emails == [Email(c.clientEmail, "", "email-legacy")])
      && (!Get(raw, "emails").Arr? && c.clientEmail == "" ==> c.emails == [])
  {
    var c := NormalizeCaseObject(raw, newId).value;
    if Get(raw, "phones").Arr? {
      PhonesEntryWise(Get(raw, "phones"), c.clientPhone, newId);
    }
    if Get(raw, "emails").Arr? {
      EmailsEntryWise(Get(raw, "emails"), c.clientEmail, newId);
    }
  }

  /** Whether `id` is the entry's own truthy id as a string, or else the generated one. */
  predicate KeptOrGenerated(id: string, given: Json, generated: string)
  {
    if Truthy(given) then id == ToJsString(given) else id == generated
  }

  /**
   * One phone per entry, in order: the entry's sanitised number and note, and its own id or
   * one generated for its position.
   */
  predicate PhonesFrom(phones: seq<Phone>, items: seq<Json>, newId: IdGen)
  {
    && |phones| == |items|
    && forall i :: 0 <= i < |items| ==>
         && phones[i].number == SanitizeValue(Or(And(items[i], Get(items[i], "number")), Str("")))
         && phones[i].note == SanitizeValue(Or(And(items[i], Get(items[i], "note")), Str("")))
         && KeptOrGenerated(phones[i].id, And(items[i], Get(items[i], "id")), newId("phone", i))
  }

  /** One email per entry, by the same rule as the phones. */
  predicate EmailsFrom(emails: seq<Email>, items: seq<Json>, newId: IdGen)
  {
    && |emails| == |items|
    && forall i :: 0 <= i < |items| ==>
         && emails[i].address == SanitizeValue(Or(And(items[i], Get(items[i], "address")), Str("")))
         && emails[i].note == SanitizeValue(Or(And(items[i], Get(items[i], "note")), Str("")))
         && KeptOrGenerated(emails[i].id, And(items[i], Get(items[i], "id")), newId("email", i))
  }

  lemma PhonesEntryWise(v: Json, clientPhone: string, newId: IdGen)
    requires v.Arr?
    ensures PhonesFrom(PhoneList(v, clientPhone, newId), v.items, newId)
  {
  }

  lemma EmailsEntryWise(v: Json, clientEmail: string, newId: IdGen)
    requires v.Arr?
    ensures EmailsFrom(EmailList(v, clientEmail, newId), v.items, newId)
  {
  }

  /** A number or the string of a number is kept as that number; anything else is null. */
  lemma FrozenDaysRoundTrip(n: int)
    ensures FrozenDays(Num(n)) == Some(n)
    ensures FrozenDays(Str(IntToString(n))) == Some(n)
  {
    StrToNumberOfIntToString(n);
  }

  /** When every value is present, filtering keeps them all, in order. */
  lemma {:induction false} FilterSomeAllPresent<T>(xs: seq<Option<T>>)
    requires forall i :: 0 <= i < |xs| ==> xs[i].Some?
    ensures |FilterSome(xs)| == |xs|
    ensures forall i :: 0 <= i < |xs| ==> FilterSome(xs)[i] == xs[i].value
  {
    if xs != [] {
      FilterSomeAllPresent(xs[1..]);
      assert forall i :: 1 <= i < |xs| ==> FilterSome(xs)[i] == FilterSome(xs[1..])[i - 1];
    }
  }

  /** When no value is present, nothing is kept. */
  lemma {:induction false} FilterSomeNonePresent<T>(xs: seq<Option<T>>)
    requires forall i :: 0 <= i < |xs| ==> xs[i].None?
    ensures FilterSome(xs) == []
  {
    if xs != [] {
      FilterSomeNonePresent(xs[1..]);
    }
  }

  /** Everything kept was present in the input. */
  lemma {:induction false} FilterSomeFrom<T>(xs: seq<Option<T>>)
    ensures forall x :: x in FilterSome(xs) ==> Some(x) in xs
  {
    if xs != [] {
      FilterSomeFrom(xs[1..]);
      assert forall o :: o in xs[1..] ==> o in xs;
    }
  }

  /**
   * An imported array whose entries are all objects keeps every entry, in order, each
   * normalised with the id generator for its position.
   */
  lemma ImportKeepsObjects(items: seq<Json>, newId: nat -> IdGen)
    requires forall i :: 0 <= i < |items| ==> items[i].Obj? || items[i].Arr?
    ensures var r := ValidateAndNormalizeImportedCases(Arr(items), newId);
      && r.Success? && |r.value| == |items|
      && forall i :: 0 <= i < |items| ==> r.value[i] == NormalizeCaseObject(items[i], newId(i)).value
  {
    FilterSomeAllPresent(NormalizeEach(items, newId));
  }

  lemma NormalizeEachSnoc(items: seq<Json>, x: Json, newId: nat -> IdGen)
    ensures NormalizeEach(items + [x], newId) == NormalizeEach(items, newId) + [NormalizeCaseObject(x, newId(|items|))]
  {
    MapIndexedSnoc(items, x, NormalizeAt(newId));
  }

  /** Filtering a concatenation filters each part. */
  lemma {:induction false} FilterSomeAppend<T>(xs: seq<Option<T>>, ys: seq<Option<T>>)
    ensures FilterSome(xs + ys) == FilterSome(xs) + FilterSome(ys)
  {
    if xs == [] {
      assert xs + ys == ys;
    } else {
      assert (xs + ys)[0] == xs[0];
      assert (xs + ys)[1..] == xs[1..] + ys;
      FilterSomeAppend(xs[1..], ys);
    }
  }

  /** One more entry adds its value when present, and nothing otherwise. */
  lemma FilterSomeSnoc<T>(xs: seq<Option<T>>, o: Option<T>)
    ensures FilterSome(xs + [o]) == FilterSome(xs) + (if o.Some? then [o.value] else [])
  {
    FilterSomeAppend(xs, [o]);
    assert [o][1..] == [];
  }

  /**
   * Importing an array with one more element: the cases of the shorter array, in the same
   * order, then the new element's case when it is an object, and nothing more otherwise.
   */
  lemma ImportStep(items: seq<Json>, x: Json, newId: nat -> IdGen)
    ensures var r := ValidateAndNormalizeImportedCases(Arr(items + [x]), newId);
      var r0 := ValidateAndNormalizeImportedCases(Arr(items), newId);
      && r.Success? && r0.Success?
      && r.value == r0.value + (if x.Obj? || x.Arr? then [NormalizeCaseObject(x, newId(|items|)).value] else [])
  {
    var o := NormalizeCaseObject(x, newId(|items|));
    NormalizeEachSnoc(items, x, newId);
    FilterSomeSnoc(NormalizeEach(items, newId), o);
  }

  /** An imported array without objects gives no case. */
  lemma ImportDropsOthers(items: seq<Json>, newId: nat -> IdGen)
    requires forall i :: 0 <= i < |items| ==> !(items[i].Obj? || items[i].Arr?)
    ensures ValidateAndNormalizeImportedCases(Arr(items), newId) == Success([])
  {
    FilterSomeNonePresent(NormalizeEach(items, newId));
  }

  /** Every imported case is well formed. */
  lemma ImportedAreWellFormed(parsed: Json, newId: nat -> IdGen)
    ensures var r := ValidateAndNormalizeImportedCases(parsed, newId);
      r.Success? ==> forall c :: c in r.value ==> WellFormedCase(c)
  {
    if parsed.Arr? {
      var xs := NormalizeEach(parsed.items, newId);
      FilterSomeFrom(xs);
      forall c | c in FilterSome(xs)
        ensures WellFormedCase(c)
      {
        var j :| 0 <= j < |xs| && xs[j] == Some(c);
        NormalizedIsWellFormed(parsed.items[j], newId(j));
      }
    } else if parsed.Obj? {
      NormalizedIsWellFormed(parsed, newId(0));
    }
  }
}
