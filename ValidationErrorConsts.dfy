/** The expected-message builders (Validators/ValidationErrorConsts.java):
    column descriptors and the ValidationError triples tests expect for them. */
module ValidationErrorConsts {
  import opened JavaStrings
  import opened Validators

  const UserInput: string := "UserInput"

  /** A column key with the display names used in English and Arabic messages. */
  datatype ColumnErrorType = ColumnErrorType(column: string, nameEn: string, nameAr: string)

  /** Columns.column: for now the Arabic display name is the English one. */
  function Column(key: string, name: string): (c: ColumnErrorType)
    ensures c.column == key && c.nameEn == name && c.nameAr == name
  {
    ColumnErrorType(key, name, name)
  }

  const AbbreviationAr: ColumnErrorType := Column("AbbreviationAr", "Arabic Abbreviation")
  const AbbreviationEn: ColumnErrorType := Column("AbbreviationEn", "English Abbreviation")
  const Code: ColumnErrorType := Column("Code", "Code")
  const CustomPropertyValues: ColumnErrorType := Column("CustomPropertyValues", "Custom Property Values")
  const EffectiveDate: ColumnErrorType := Column("EffectiveDate", "Effective Date")
  const Group: ColumnErrorType := Column("Group", "Group")
  const NameAr: ColumnErrorType := Column("NameAr", "Arabic Name")
  const NameEn: ColumnErrorType := Column("NameEn", "English Name")
  const Specialty: ColumnErrorType := Column("Specialty", "Specialty")
  const StatusReason: ColumnErrorType := Column("StatusReason", "Status Reason")
  const TitleAr: ColumnErrorType := Column("TitleAr", "Arabic Title")
  const TitleEn: ColumnErrorType := Column("TitleEn", "English Title")
  const Type: ColumnErrorType := Column("Type", "Type")
  const Status: ColumnErrorType := Column("Status", "Status")
  const ReferenceAverageCost: ColumnErrorType := Column("ReferenceAverageCost", "Reference Average Cost")

  /** Every constant of the Columns class, in declaration order. */
  const AllColumns: seq<ColumnErrorType> :=
    [AbbreviationAr, AbbreviationEn, Code, CustomPropertyValues, EffectiveDate, Group, NameAr,
     NameEn, Specialty, StatusReason, TitleAr, TitleEn, Type, Status, ReferenceAverageCost]

  /** create: String.format of a one-conversion template with the English
      name for the message and the Arabic name for messageAr. Every template
      here is given as its pieces around the `%s` conversions, and String.format
      of such a template is `Filled` (JavaStrings.FormatTemplate). */
  function Create(c: ColumnErrorType, pieces: seq<string>): (e: ValidationError)
    requires |pieces| == 2
    ensures e.column == c.column
    ensures e.message == pieces[0] + c.nameEn + pieces[1]
    ensures e.messageAr == pieces[0] + c.nameAr + pieces[1]
  {
    FilledOne(pieces, c.nameEn);
    FilledOne(pieces, c.nameAr);
    ValidationError(c.column, Filled(pieces, [c.nameEn]), Filled(pieces, [c.nameAr]))
  }

  /** For every Columns constant the two languages coincide, whatever the template. */
  lemma CreateMonolingual(k: int, pieces: seq<string>)
    requires 0 <= k < |AllColumns|
    requires |pieces| == 2
    ensures Create(AllColumns[k], pieces).message == Create(AllColumns[k], pieces).messageAr
  {
    assert AllColumns[k].nameEn == AllColumns[k].nameAr;
  }

  const AlreadyExistsPieces: seq<string> := ["", " already exists, please enter a new one"]
  const CantBeEmptyPieces: seq<string> := ["", " can't be empty"]
  const SelectedNotValidPieces: seq<string> := ["Selected ", " is not valid"]

  /** ValidationMessages.alreadyExists. */
  function AlreadyExists(c: ColumnErrorType): (e: ValidationError)
    ensures e.column == c.column
    ensures e.message == c.nameEn + " already exists, please enter a new one"
    ensures e.messageAr == c.nameAr + " already exists, please enter a new one"
  {
    Create(c, AlreadyExistsPieces)
  }

  /** ValidationMessages.cantBeEmpty. */
  function CantBeEmpty(c: ColumnErrorType): (e: ValidationError)
    ensures e.column == c.column
    ensures e.message == c.nameEn + " can't be empty"
    ensures e.messageAr == c.nameAr + " can't be empty"
  {
    Create(c, CantBeEmptyPieces)
  }

  /** selectedNotValid. */
  function SelectedNotValid(c: ColumnErrorType): (e: ValidationError)
    ensures e.column == c.column
    ensures e.message == "Selected " + c.nameEn + " is not valid"
    ensures e.messageAr == "Selected " + c.nameAr + " is not valid"
  {
    Create(c, SelectedNotValidPieces)
  }

  /** ValidationMessages.referenceCostNegative. */
  function ReferenceCostNegative(): ValidationError
  {
    ValidationError(ReferenceAverageCost.column, "Reference average cost can't be negative",
                    "لا يمكن أن يكون متوسط التكلفة المرجعي سالبًا")
  }

  /** ValidationMessages.referenceCostInvalidFormat. */
  function ReferenceCostInvalidFormat(): ValidationError
  {
    ValidationError(ReferenceAverageCost.column, "Reference average cost must be a valid number",
                    "يجب أن يكون متوسط التكلفة المرجعي رقماً صحيحاً")
  }

  /** ValidationMessages.referenceCostNegativeWithBothApostrophes: despite its
      name, both texts carry the straight apostrophe. */
  function ReferenceCostNegativeWithBothApostrophes(): ValidationError
  {
    ValidationError(ReferenceAverageCost.column, "Reference average cost can't be negative",
                    "Reference average cost can't be negative")
  }

  /** The three reference-cost builders all report the ReferenceAverageCost column. */
  lemma ReferenceCostBuildersColumn()
    ensures ReferenceCostNegative().column == "ReferenceAverageCost"
    ensures ReferenceCostInvalidFormat().column == "ReferenceAverageCost"
    ensures ReferenceCostNegativeWithBothApostrophes().column == "ReferenceAverageCost"
    ensures ReferenceCostNegativeWithBothApostrophes().message == ReferenceCostNegativeWithBothApostrophes().messageAr
  {
  }

  /** effectiveDateEarlierThanToday: the column is the caller's, the texts are fixed. */
  function EffectiveDateEarlierThanToday(c: ColumnErrorType): (e: ValidationError)
    ensures e.column == c.column
    ensures e.message == "Effective date can not be earlier than today"
  {
    ValidationError(c.column, "Effective date can not be earlier than today",
                    "لا يمكن أن يكون تاريخ السريان قبل اليوم")
  }

  /** statusToNew: the column is the caller's, the texts are fixed; the English text spells
      "can’t" with the curly apostrophe U+2019, unlike the straight one of its quotes. */
  function StatusToNew(c: ColumnErrorType): (e: ValidationError)
    ensures e.column == c.column
    ensures e.message == "Status can’t change back to 'New'"
    ensures |e.message| > 10 && e.message[10] == '\U{2019}' && '\'' in e.message
  {
    ValidationError(c.column, "Status can’t change back to 'New'",
                    "لا يمكن تغيير الحالة إلى 'جديد'")
  }

  /** The texts of these two builders do not depend on the column they report. */
  lemma ColumnFreeTexts(c1: ColumnErrorType, c2: ColumnErrorType)
    ensures EffectiveDateEarlierThanToday(c1).message == EffectiveDateEarlierThanToday(c2).message
    ensures EffectiveDateEarlierThanToday(c1).messageAr == EffectiveDateEarlierThanToday(c2).messageAr
    ensures StatusToNew(c1).message == StatusToNew(c2).message
    ensures StatusToNew(c1).messageAr == StatusToNew(c2).messageAr
  {
  }

  const DeletedPieces: seq<string> := ["", " (", ") already exists but in a deleted ", ", use another value or contact the super admin"]
  const DeletedPiecesAr: seq<string> := ["", " (", ") موجود مسبقًا ولكن في ", " محذوف، استخدم قيمة أخرى أو اتصل بالمسؤول"]

  /** columnAlreadyExistsButDeleted(column, value, entityType). */
  function ColumnAlreadyExistsButDeleted(c: ColumnErrorType, value: string, entityType: string): (e: ValidationError)
    ensures e.column == c.column
    ensures e.message == c.nameEn + " (" + value + ") already exists but in a deleted " + entityType
                         + ", use another value or contact the super admin"
    ensures e.messageAr == Filled(DeletedPiecesAr, [c.nameAr, value, entityType])
  {
    FilledThree(DeletedPieces, c.nameEn, value, entityType);
    EmptyConcat(c.nameEn);
    ValidationError(c.column, Filled(DeletedPieces, [c.nameEn, value, entityType]),
                    Filled(DeletedPiecesAr, [c.nameAr, value, entityType]))
  }

  const LinkedPieces: seq<string> := ["", " ", " can’t be changed, because the ", " is already linked to a ", ""]
  const LinkedPiecesAr: seq<string> := ["", " ", " لا يمكن تغييره لأنه مرتبط بالفعل بـ ", ""]

  /** cantChangeAlreadyLinked(column, entityType, linkedTo). */
  function CantChangeAlreadyLinked(c: ColumnErrorType, entityType: string, linkedTo: string): (e: ValidationError)
    ensures e.column == c.column
    ensures e.message == entityType + " " + c.nameEn + " can’t be changed, because the " + entityType
                         + " is already linked to a " + linkedTo
    ensures e.messageAr == Filled(LinkedPiecesAr, [entityType, c.nameAr, linkedTo])
  {
    FilledFour(LinkedPieces, entityType, c.nameEn, entityType, linkedTo);
    EmptyConcat(entityType);
    ValidationError(c.column, Filled(LinkedPieces, [entityType, c.nameEn, entityType, linkedTo]),
                    Filled(LinkedPiecesAr, [entityType, c.nameAr, linkedTo]))
  }

  const SingleStatusPieces: seq<string> := ["", " status can’t be changed, at least one covered and effective ", " must be linked"]
  const SingleStatusPiecesAr: seq<string> := ["لا يمكن تغيير حالة ", "، يجب ربط ", " واحد على الأقل مغطى وساري"]

  /** singleStatusCantChangeNoLinked(entityType, linkedTo): always the Status column. */
  function SingleStatusCantChangeNoLinked(entityType: string, linkedTo: string): (e: ValidationError)
    ensures e.column == "Status"
    ensures e.message == entityType + " status can’t be changed, at least one covered and effective "
                         + linkedTo + " must be linked"
    ensures e.messageAr == Filled(SingleStatusPiecesAr, [entityType, linkedTo])
  {
    FilledTwo(SingleStatusPieces, entityType, linkedTo);
    EmptyConcat(entityType);
    ValidationError(Status.column, Filled(SingleStatusPieces, [entityType, linkedTo]),
                    Filled(SingleStatusPiecesAr, [entityType, linkedTo]))
  }

  /** cantDeleteAlreadyLinked(entityName, linkedTo). */
  function CantDeleteAlreadyLinked(entityName: string, linkedTo: string): ValidationError
  {
    ValidationError("CantDeleteAlreadyLinked",
                    entityName + " can’t be deleted, because some already linked to " + linkedTo,
                    entityName + " لا يمكن حذفه، لأنه مرتبط بالفعل بـ " + linkedTo)
  }

  /** noRecordsToShow. */
  function NoRecordsToShow(): ValidationError
  {
    ValidationError("NoRecordsToShow", "No records to show", "لا توجد سجلات للعرض")
  }

  /** recordsDoesntExists. */
  function RecordsDoesntExists(): ValidationError
  {
    ValidationError("RecordsDoesntExists", "Records doesn't exist", "السجلات غير موجودة")
  }

  /** Three builders report fixed pseudo-columns that no Columns constant
      carries; singleStatusCantChangeNoLinked always reports Status. */
  lemma PseudoColumns(entityName: string, entityType: string, linkedTo: string)
    ensures CantDeleteAlreadyLinked(entityName, linkedTo).column == "CantDeleteAlreadyLinked"
    ensures NoRecordsToShow().column == "NoRecordsToShow"
    ensures RecordsDoesntExists().column == "RecordsDoesntExists"
    ensures forall k :: 0 <= k < |AllColumns| ==>
              AllColumns[k].column !in ["CantDeleteAlreadyLinked", "NoRecordsToShow", "RecordsDoesntExists"]
    ensures SingleStatusCantChangeNoLinked(entityType, linkedTo).column == Status.column
  {
  }

  /** create agrees with String.format of the template its pieces spell:
      the English name, then the Arabic name, put in place of the `%s`. */
  lemma CreateIsFormat(c: ColumnErrorType, pieces: seq<string>)
    requires |pieces| == 2 && NoPercent(pieces[0]) && NoPercent(pieces[1])
    ensures WellFormedTemplate(Template(pieces)) && Arity(Template(pieces)) == 1
    ensures Create(c, pieces).message == Format(Template(pieces), [c.nameEn])
    ensures Create(c, pieces).messageAr == Format(Template(pieces), [c.nameAr])
  {
    assert forall i :: 0 <= i < |pieces| ==> NoPercent(pieces[i]);
    FormatTemplate(pieces, [c.nameEn]);
    FormatTemplate(pieces, [c.nameAr]);
    FilledOne(pieces, c.nameEn);
    FilledOne(pieces, c.nameAr);
  }
}
