/** 64-bit machine words as their bits, least significant first. */
module Words {

  type Word = s: seq<bool> | |s| == 64 witness seq(64, _ => false)

  const ZERO: Word := seq(64, _ => false)

  function And(x: Word, y: Word): Word {
    seq(64, i requires 0 <= i < 64 => x[i] && y[i])
  }

  function Or(x: Word, y: Word): Word {
    seq(64, i requires 0 <= i < 64 => x[i] || y[i])
  }

  function Xor(x: Word, y: Word): Word {
    seq(64, i requires 0 <= i < 64 => x[i] != y[i])
  }

  function Not(x: Word): Word {
    seq(64, i requires 0 <= i < 64 => !x[i])
  }

  /** g << b, for a single bit g. */
  function Shifted(g: bool, b: nat): Word {
    seq(64, i => g && i == b)
  }

  /** 0 - g, for a single bit g. */
  function Negated(g: bool): Word {
    seq(64, _ => g)
  }
}
