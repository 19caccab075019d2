/** What can go wrong with one storage call.

    A storage call is a sequence of flash operations: one sector erase, or one word or byte
    program each; a read is one operation. `Fail(at, tear)` lets the operations before number
    `at` complete, breaks number `at` half-way, and nothing after it happens: the source
    returns at the first HAL error, and after a power cut nothing runs at all, so both leave
    the same flash. `tear` chooses, bit by bit, how much of the broken operation took effect. */
module Faults {
  import opened Words

  datatype Fault = Fine | Fail(at: nat, tear: nat -> Word)

  /** Operation number op of the call is the one that breaks. */
  predicate Strikes(f: Fault, op: nat) { f.Fail? && f.at == op }

  /** One of the operations first .. first + count is the one that breaks. */
  predicate StrikesIn(f: Fault, first: nat, count: nat) { f.Fail? && first <= f.at < first + count }

  /** Programming a word only clears bits; a broken program clears some of the bits it should.
      Operations after the broken one do nothing. */
  function ProgramWord(cell: Word, w: Word, f: Fault, op: nat): Word {
    match f
    case Fine => cell & w
    case Fail(at, tear) =>
      if op < at then cell & w
      else if op == at then cell & (w | tear(op))
      else cell
  }

  /** Program consecutive words, starting with operation number first. */
  function ProgramWords(cells: seq<Word>, data: seq<Word>, f: Fault, first: nat): (r: seq<Word>)
    requires |cells| == |data|
    ensures |r| == |data|
  {
    seq(|data|, k requires 0 <= k < |data| => ProgramWord(cells[k], data[k], f, first + k))
  }

  /** An erase sets bits; a broken erase sets any of them. */
  function TearErasedWord(cell: Word, f: Fault, k: nat): Word
    requires f.Fail?
  {
    cell | f.tear(k)
  }
}
