/**
 Columns, row predicates, and the test for an equality on the primary key.
 */
module Predicates {
  import opened BTreeSpec
  import opened RowCodec
  import opened TableIndex

  datatype Column = Column(name: string, kind: DataType, isIndex: bool, isPrimary: bool)

  function Types(columns: seq<Column>): (r: seq<DataType>)
    ensures |r| == |columns| && forall i :: 0 <= i < |columns| ==> r[i] == columns[i].kind
  {
    seq(|columns|, i requires 0 <= i < |columns| => columns[i].kind)
  }

  /** A WHERE clause: a column, the type of its literal, the literal, whether the operator is
      equality, and the comparison as a test of the column's value. */
  datatype VariablePredicate =
    | NullPredicate
    | Predicate(kind: DataType, target: string, isEqual: bool, arg: Data, test: Data -> bool)

  /** What the parser builds: the literal has the predicate's type, and an equality on an integer,
      a string or a truth value is the equality with the literal. */
  ghost predicate WellFormed(pred: VariablePredicate) {
    pred.Predicate? ==>
      && pred.kind != UNDEFINED && TypeOf(pred.arg) == pred.kind && InRange(pred.arg)
      && (pred.isEqual && pred.kind != FLOAT ==>
            forall d :: TypeOf(d) == pred.kind ==> (pred.test(d) <==> d == pred.arg))
  }

  /** The position of each name's column; of columns with the same name, the last. */
  function ColumnIndex(columns: seq<Column>): (m: map<string, nat>)
    ensures forall name :: name in m ==> m[name] < |columns| && columns[m[name]].name == name
  {
    if columns == [] then map[]
    else ColumnIndex(columns[..|columns| - 1])[columns[|columns| - 1].name := |columns| - 1]
  }

  /** Every column's name is in the index, at that column or a later one. */
  lemma {:induction false} ColumnListed(columns: seq<Column>, i: nat)
    requires i < |columns|
    ensures columns[i].name in ColumnIndex(columns) && ColumnIndex(columns)[columns[i].name] >= i
    ensures forall j :: ColumnIndex(columns)[columns[i].name] < j < |columns| ==> columns[j].name != columns[i].name
    decreases |columns|
  {
    var front := columns[..|columns| - 1];
    if columns[|columns| - 1].name != columns[i].name {
      ColumnListed(front, i);
      assert front[i] == columns[i];
      forall j | ColumnIndex(columns)[columns[i].name] < j < |columns| ensures columns[j].name != columns[i].name {
        if j < |front| {
          assert front[j] == columns[j];
        }
      }
    }
  }

  /** The first column marked primary, or column 0. */
  function PrimaryKeyIndex(columns: seq<Column>): (i: nat)
    requires columns != []
    ensures i < |columns|
    ensures columns[i].isPrimary || (i == 0 && forall j :: 0 <= j < |columns| ==> !columns[j].isPrimary)
    ensures forall j :: 0 <= j < i ==> !columns[j].isPrimary
  {
    if columns[0].isPrimary then 0
    else if |columns| > 1 && (exists j :: 0 <= j < |columns| && columns[j].isPrimary)
    then PrimaryKeyIndex(columns[1..]) + 1
    else 0
  }

  // ---------------------------------------------------------------- the fast path's entry test

  /** Position of a predicate in the variant type: int, string, bool, double, none. */
  function VariantIndex(pred: VariablePredicate): nat {
    match pred
    case NullPredicate => 4
    case Predicate(kind, _, _, _, _) =>
      match kind
      case INT => 0
      case VARCHAR_16 => 1
      case BOOL => 2
      case _ => 3
  }

  /** Position of a column type in its enumeration, which is in another order. */
  function TypeNumber(t: DataType): nat {
    match t
    case UNDEFINED => 0
    case VARCHAR_16 => 1
    case INT => 2
    case BOOL => 3
    case FLOAT => 4
  }

  datatype Entry = Skip | Key(key: nat) | BadVariantAccess

  /** Does the predicate ask for one primary key?  As written, the test compares the two positions;
      as intended, it compares the types.  Taking the wrong alternative out of the variant throws. */
  function FastPathEntry(routing: Reading, columns: seq<Column>, hash: seq<byte> -> u64, pred: VariablePredicate): Entry
    requires columns != [] && pred.Predicate? && InRange(pred.arg) && pred.target in ColumnIndex(columns)
  {
    var pk := PrimaryKeyIndex(columns);
    var pkType := columns[pk].kind;
    var same := if routing.AsWritten? then VariantIndex(pred) == TypeNumber(pkType) else pred.kind == pkType;
    if !same || pkType == FLOAT || pkType == UNDEFINED then Skip
    else if pred.kind != pkType then BadVariantAccess
    else if !pred.isEqual || ColumnIndex(columns)[pred.target] != pk || KeyOf(hash, pred.arg).None? then Skip
    else Key(KeyOf(hash, pred.arg).value)
  }

  /** As written, the indexed path is entered exactly for an equality on a string key, and throws
      exactly for a truth-value predicate on a table with an integer key and a double predicate on
      one with a truth-value key. */
  lemma AsWrittenEntry(columns: seq<Column>, hash: seq<byte> -> u64, pred: VariablePredicate)
    requires columns != [] && pred.Predicate? && WellFormed(pred) && pred.target in ColumnIndex(columns)
    ensures var pk := PrimaryKeyIndex(columns);
            var pkType := columns[pk].kind;
            var e := FastPathEntry(AsWritten, columns, hash, pred);
            && (e.BadVariantAccess? <==> (pkType == INT && pred.kind == BOOL) || (pkType == BOOL && pred.kind == FLOAT))
            && (e.Key? <==> pkType == VARCHAR_16 && pred.kind == VARCHAR_16 && pred.isEqual
                            && ColumnIndex(columns)[pred.target] == pk)
            && (e.Key? ==> KeyOf(hash, pred.arg) == Some(e.key))
  {
  }

  /** With the types compared, it never throws and is entered exactly for an equality on the key
      column, of a type that can be a key. */
  lemma IntendedEntry(columns: seq<Column>, hash: seq<byte> -> u64, pred: VariablePredicate)
    requires columns != [] && pred.Predicate? && WellFormed(pred) && pred.target in ColumnIndex(columns)
    requires columns[ColumnIndex(columns)[pred.target]].kind == pred.kind
    ensures var pk := PrimaryKeyIndex(columns);
            var e := FastPathEntry(Intended, columns, hash, pred);
            && !e.BadVariantAccess?
            && (e.Key? <==> pred.isEqual && ColumnIndex(columns)[pred.target] == pk && pred.kind != FLOAT)
            && (e.Key? ==> KeyOf(hash, pred.arg) == Some(e.key))
  {
  }
}
