/** The assembler's record log (apps/asm.c:14-62) as a list, and the addresses it stands for. */
module Records {
  import opened Bytes

  datatype Kind = Uninitialised | Reference | Zp | Bss | Text | Computed

  datatype Postprocessing = None | Lsb | Msb

  /**
   Records refer to symbols by their index in the log. Every kind of record is here except the
   one that marks the end, which carries nothing.
   */
  datatype Record =
    | Bytes(data: seq<Byte>)
    | Fill(count: Word)
    | Expr(opcode: Byte, variable: nat, offset: Word, length: Byte, post: Postprocessing)
    | Symbol(kind: Kind, alias: Option<nat>, address: Word, next: Option<nat>, name: seq<Byte>)
    | LabelDef(symbol: nat)

  const START_ADDRESS: nat := 7

  /** References point back to symbols; only text symbols are defined by labels, and only once. */
  ghost predicate WellFormed(log: seq<Record>)
  {
    && (forall k :: 0 <= k < |log| && log[k].Expr? ==> log[k].variable < k && log[log[k].variable].Symbol?)
    && (forall k :: 0 <= k < |log| && log[k].LabelDef? ==>
          log[k].symbol < k && log[log[k].symbol].Symbol? && log[log[k].symbol].kind == Text)
    && (forall i, j :: 0 <= i < j < |log| && log[i].LabelDef? && log[j].LabelDef? ==>
          log[i].symbol != log[j].symbol)
  }

  /** The bytes of the image a record stands for. */
  function Size(r: Record): nat
  {
    match r
    case Bytes(data) => |data|
    case Fill(count) => count
    case Expr(_, _, _, length, _) => length
    case Symbol(_, _, _, _, _) => 0
    case LabelDef(_) => 0
  }

  /** The bytes of the image before record k. */
  function Extent(log: seq<Record>, k: nat): nat
    requires k <= |log|
  {
    if k == 0 then 0 else Extent(log, k - 1) + Size(log[k - 1])
  }

  /** The 16-bit address of record k. */
  function Pc(log: seq<Record>, k: nat): Word
    requires k <= |log|
  {
    ToWord(START_ADDRESS + Extent(log, k))
  }

  lemma {:induction false} ExtentSame(a: seq<Record>, b: seq<Record>, k: nat)
    requires k <= |a| && k <= |b|
    requires forall i :: 0 <= i < k ==> Size(a[i]) == Size(b[i])
    ensures Extent(a, k) == Extent(b, k)
  {
    if k > 0 {
      ExtentSame(a, b, k - 1);
    }
  }

  lemma {:induction false} ExtentMonotone(log: seq<Record>, i: nat, j: nat)
    requires i <= j <= |log|
    ensures Extent(log, i) <= Extent(log, j)
  {
    if i < j {
      ExtentMonotone(log, i, j - 1);
    }
  }

  /** Neither symbols nor label definitions take up room. */
  lemma PcNext(log: seq<Record>, k: nat)
    requires k < |log|
    ensures Pc(log, k + 1) == ToWord(Pc(log, k) + Size(log[k]))
  {
    ToWordAdd(START_ADDRESS + Extent(log, k), Size(log[k]));
  }
}
