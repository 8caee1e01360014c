/** What the deleted-entity message builder and the expected-message table
    of the base validation helpers say together: every deleted-service
    message passes the table check on the columns that list that text. */
module CatalogCoverage {
  import opened JavaStrings
  import opened Validators
  import opened ValidationErrorConsts
  import opened BaseValidationUtils

  // The connective of the English deleted-entity message, cut into pieces
  // small enough for the solver to compare.
  const Connective: string := ") already exists but in a deleted "
  const Advice: string := ", use another value or contact the super admin"

  lemma ConnectiveSplit()
    ensures Connective == ") already " + "exists but in a deleted "
  {
  }

  lemma AlreadySplit()
    ensures ") already " == ") " + "already "
  {
  }

  lemma PhraseJoin()
    ensures "already " + "exists but in a deleted " == "already exists but in a deleted "
  {
  }

  lemma ServiceJoin()
    ensures "already exists but in a deleted " + "service" == DeletedServiceText
  {
  }

  /** With "service" filled in, the connective is a closing parenthesis, a
      space and the deleted-service text. */
  lemma DeletedServiceConnective()
    ensures Connective + "service" == ") " + DeletedServiceText
  {
    ConnectiveSplit();
    AlreadySplit();
    PhraseJoin();
    ServiceJoin();
    ConcatAssoc(") ", "already ", "exists but in a deleted ");
    ConcatAssoc(") ", "already exists but in a deleted ", "service");
  }

  /** A deleted-service message is a head naming the column and the value,
      the deleted-service text, and the fixed advice. */
  lemma DeletedServiceMessageShape(c: ColumnErrorType, value: string)
    ensures ColumnAlreadyExistsButDeleted(c, value, "service").message ==
            (c.nameEn + " (" + value + ") ") + DeletedServiceText + Advice
  {
    var message := ColumnAlreadyExistsButDeleted(c, value, "service").message;
    var head := c.nameEn + " (" + value;
    assert message == head + Connective + "service" + Advice;
    ConcatAssoc(head, Connective, "service");
    DeletedServiceConnective();
    ConcatAssoc(head, ") ", DeletedServiceText);
  }

  /** Trimming leaves a text alone when it starts and ends visibly, and
      lower-casing keeps a lower-case middle piece in place. */
  lemma FoldKeepsLoweredMiddle(head: string, t: string, tail: string)
    requires |head| > 0 && head[0] > ' ' && |tail| > 0 && tail[|tail| - 1] > ' '
    requires IsLowered(t)
    ensures Contains(Lower(Trim(head + t + tail)), t)
  {
    var s := head + t + tail;
    assert s[0] == head[0];
    assert s[|s| - 1] == tail[|tail| - 1];
    TrimVisible(s);
    LowerConcat(head + t, tail);
    LowerConcat(head, t);
    LowerOfLowered(t);
    ContainsInfix(Lower(head), t, Lower(tail));
  }

  /** A deleted-service message, folded as the table check folds it, holds
      the deleted-service text. */
  lemma DeletedServiceMessageFolds(c: ColumnErrorType, value: string)
    requires |c.nameEn| > 0 && c.nameEn[0] > ' '
    ensures Contains(Lower(Trim(ColumnAlreadyExistsButDeleted(c, value, "service").message)), DeletedServiceText)
  {
    DeletedServiceMessageShape(c, value);
    var head := c.nameEn + " (" + value + ") ";
    assert head[0] == c.nameEn[0];
    assert Advice[|Advice| - 1] == 'n';
    DeletedServiceTextFolds();
    FoldKeepsLoweredMiddle(head, DeletedServiceText, Advice);
  }

  /** The literal deleted-service entry matches every folded message that
      holds the text. */
  lemma DeletedServiceEntryMatches(actual: string)
    requires Contains(actual, DeletedServiceText)
    ensures EntryMatches(Literal(DeletedServiceText), actual)
  {
    DeletedServiceTextFolds();
  }

  /** Every columnAlreadyExistsButDeleted message for a service, on a column
      whose row carries the deleted-service entries, conforms to the table,
      whatever the rejected value and whichever ReferenceAverageCost row the
      table holds (so to the table as written and to the corrected one). */
  lemma DeletedServiceMessageConforms(c: ColumnErrorType, value: string, referenceCost: seq<CatalogEntry>)
    requires c.column in DeletedServiceColumns
    requires |c.nameEn| > 0 && c.nameEn[0] > ' '
    ensures CheckMessage(CatalogWith(referenceCost), ColumnAlreadyExistsButDeleted(c, value, "service")).Pass?
  {
    var e := ColumnAlreadyExistsButDeleted(c, value, "service");
    DeletedServiceMessageFolds(c, value);
    DeletedServiceEntryMatches(Lower(Trim(e.message)));
    DeletedServiceRowFound(referenceCost, c.column);
    ListedLiteralPasses(CatalogWith(referenceCost), e, DeletedServiceText);
  }
}
