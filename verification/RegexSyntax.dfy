/** The patterns of the regular expression compiler: their syntax trees, and the grammar
    that turns a pattern into a tree. */
module RegexSyntax {
  import opened Ascii

  const CARET := '^' as int
  const DOLLAR := '$' as int
  const DOT := '.' as int
  const LBRACKET := '[' as int
  const RBRACKET := ']' as int
  const LPAREN := '(' as int
  const RPAREN := ')' as int
  const BAR := '|' as int
  const QUESTION := '?' as int
  const PLUS_SIGN := '+' as int
  const ASTERISK := '*' as int
  const BACKSLASH := '\\' as int
  const DASH := '-' as int

  const NSUBEXP := 10

  /** META: the characters a run of ordinary ones stops at. */
  predicate IsMeta(c: int) {
    c in {CARET, DOLLAR, DOT, LBRACKET, LPAREN, RPAREN, BAR, QUESTION, PLUS_SIGN, ASTERISK, BACKSLASH}
  }

  /** ISREPN */
  predicate IsRep(c: int) {
    c == ASTERISK || c == PLUS_SIGN || c == QUESTION
  }

  datatype Re =
    | Bol
    | Eol
    | Any
    | OneOf(cs: seq<Ch>)
    | NoneOf(cs: seq<Ch>)
    | Lit(cs: seq<Ch>)
    | Group(no: nat, alts: seq<Branch>)
    | Star(r: Re)
    | Plus(r: Re)
    | Opt(r: Re)

  /** One alternative: pieces one after the other. */
  datatype Branch = Branch(ps: seq<Re>)

  /** HASWIDTH: known never to match the empty string. */
  predicate Width(r: Re)
    decreases r
  {
    match r
    case Bol => false
    case Eol => false
    case Any => true
    case OneOf(_) => true
    case NoneOf(_) => true
    case Lit(_) => true
    case Group(_, alts) => AltsWidth(alts)
    case Star(_) => false
    case Plus(_) => true
    case Opt(_) => false
  }

  predicate SeqWidth(ps: seq<Re>)
    decreases ps
  {
    ps != [] && (Width(ps[0]) || SeqWidth(ps[1..]))
  }

  predicate AltsWidth(alts: seq<Branch>)
    decreases alts
  {
    alts == [] || (SeqWidth(alts[0].ps) && AltsWidth(alts[1..]))
  }

  /** SIMPLE: one character wide, and compiled to a single node. */
  predicate Simple(r: Re) {
    match r
    case Any => true
    case OneOf(_) => true
    case NoneOf(_) => true
    case Lit(cs) => |cs| == 1
    case _ => false
  }

  /** SPSTART: starts with * or +. */
  predicate StarStart(r: Re)
    decreases r
  {
    match r
    case Star(_) => true
    case Plus(_) => true
    case Group(_, alts) => AltsStarStart(alts)
    case _ => false
  }

  predicate SeqStarStart(ps: seq<Re>)
    decreases ps
  {
    ps != [] && StarStart(ps[0])
  }

  predicate AltsStarStart(alts: seq<Branch>)
    decreases alts
  {
    alts != [] && (SeqStarStart(alts[0].ps) || AltsStarStart(alts[1..]))
  }

  // ------------------------------------------------------------ the grammar

  /** A parse: a value, the position after it and the number of groups opened so far. */
  datatype Parsed<T> = Reject | Accept(value: T, pos: nat, npar: nat)

  /** What `r` followed by a repetition sign is. */
  function Repeat(r: Re, op: int): Re
    requires IsRep(op)
  {
    if op == ASTERISK then Star(r) else if op == PLUS_SIGN then Plus(r) else Opt(r)
  }

  /** The characters after the first of a range, up to its end. */
  function RangeTail(lo: Ch, hi: Ch): (cs: seq<Ch>)
    requires lo <= hi
    decreases hi as int - lo as int
  {
    if lo == hi then [] else
      var next: Ch := lo + 1;
      [next] + RangeTail(next, hi)
  }

  /** The rest of a bracket expression; cs are the characters it has so far. */
  function ParseClass(p: seq<Ch>, pos: nat, cs: seq<Ch>): (a: Parsed<seq<Ch>>)
    requires pos > 0
    ensures a.Accept? ==> pos < a.pos <= |p| && |cs| <= |a.value|
    decreases |p| - pos
  {
    var c := CharAt(p, pos);
    if c == 0 then Reject
    else if c == RBRACKET then Accept(cs, pos + 1, 0)
    else if c != DASH then ParseClass(p, pos + 1, cs + [p[pos]])
    else
      var d := CharAt(p, pos + 1);
      if d == RBRACKET || d == 0 then ParseClass(p, pos + 1, cs + [p[pos]])
      else if p[pos - 1] > p[pos + 1] then Reject
      else ParseClass(p, pos + 2, cs + RangeTail(p[pos - 1], p[pos + 1]))
  }

  lemma ClassUnfold(p: seq<Ch>, pos: nat, cs: seq<Ch>)
    requires pos > 0
    ensures ParseClass(p, pos, cs) ==
            var c := CharAt(p, pos);
            var d := CharAt(p, pos + 1);
            if c == 0 then Reject
            else if c == RBRACKET then Accept(cs, pos + 1, 0)
            else if c != DASH || d == RBRACKET || d == 0 then ParseClass(p, pos + 1, cs + [p[pos]])
            else if p[pos - 1] > p[pos + 1] then Reject
            else ParseClass(p, pos + 2, cs + RangeTail(p[pos - 1], p[pos + 1]))
  {
  }

  /** strcspn: how many ordinary characters follow. */
  function Run(p: seq<Ch>, pos: nat): (n: nat)
    decreases |p| - pos
    ensures pos <= |p| ==> pos + n <= |p|
    ensures forall i :: pos <= i < pos + n && i < |p| ==> !IsMeta(p[i])
    ensures pos <= |p| ==> (pos + n == |p| || IsMeta(p[pos + n]))
  {
    if pos >= |p| || IsMeta(p[pos]) then 0 else 1 + Run(p, pos + 1)
  }

  /** The length of a literal: a run, less its last character when that one is repeated. */
  function LitLength(p: seq<Ch>, pos: nat): (n: nat)
    ensures pos <= |p| ==> pos + n <= |p|
  {
    var n := Run(p, pos);
    if n > 1 && IsRep(CharAt(p, pos + n)) then n - 1 else n
  }

  function ParseAtom(p: seq<Ch>, pos: nat, npar: nat): (a: Parsed<Re>)
    ensures a.Accept? ==> pos < a.pos <= |p| && npar <= a.npar <= (if npar < NSUBEXP then NSUBEXP else npar)
    decreases |p| - pos, 0
  {
    var c := CharAt(p, pos);
    if c == CARET then Accept(Bol, pos + 1, npar)
    else if c == DOLLAR then Accept(Eol, pos + 1, npar)
    else if c == DOT then Accept(Any, pos + 1, npar)
    else if c == LBRACKET then ParseBracket(p, pos + 1, npar)
    else if c == LPAREN then ParseGroup(p, pos + 1, npar)
    else if c == 0 || c == BAR || c == RPAREN || IsRep(c) then Reject
    else if c == BACKSLASH then
      if CharAt(p, pos + 1) == 0 then Reject else Accept(Lit([p[pos + 1]]), pos + 2, npar)
    else
      var n := LitLength(p, pos);
      Accept(Lit(p[pos..pos + n]), pos + n, npar)
  }

  /** The characters of a bracket expression: a bracket or a dash that comes first is ordinary. */
  function ParseMembers(p: seq<Ch>, pos: nat): (a: Parsed<seq<Ch>>)
    requires pos > 0
    ensures a.Accept? ==> pos < a.pos <= |p|
  {
    if CharAt(p, pos) == RBRACKET || CharAt(p, pos) == DASH then ParseClass(p, pos + 1, [p[pos]]) else ParseClass(p, pos, [])
  }

  /** A bracket expression, from after the bracket. */
  function ParseBracket(p: seq<Ch>, pos: nat, npar: nat): (a: Parsed<Re>)
    requires pos > 0
    ensures a.Accept? ==> pos < a.pos <= |p| && a.npar == npar
  {
    var not := CharAt(p, pos) == CARET;
    var cs := ParseMembers(p, if not then pos + 1 else pos);
    if cs.Reject? then Reject else Accept(if not then NoneOf(cs.value) else OneOf(cs.value), cs.pos, npar)
  }

  /** The alternatives of a group, from after its opening parenthesis, or those of a whole
      pattern. A group takes the next number. */
  function ParseReg(p: seq<Ch>, pos: nat, npar: nat, paren: bool): (a: Parsed<seq<Branch>>)
    ensures a.Accept? ==> pos <= a.pos && (pos <= |p| ==> a.pos <= |p|)
    ensures a.Accept? && paren ==> pos < a.pos <= |p| && npar < a.npar <= NSUBEXP
    decreases |p| - pos, 4
  {
    if paren && npar >= NSUBEXP then Reject
    else
      var alts := ParseAlts(p, pos, if paren then npar + 1 else npar, []);
      if alts.Reject? || CharAt(p, alts.pos) != (if paren then RPAREN else 0) then Reject
      else if paren then Accept(alts.value, alts.pos + 1, alts.npar) else alts
  }

  function ParseGroup(p: seq<Ch>, pos: nat, npar: nat): (a: Parsed<Re>)
    ensures a.Accept? ==> pos < a.pos <= |p| && npar < a.npar <= NSUBEXP
    decreases |p| - pos, 5
  {
    var alts := ParseReg(p, pos, npar, true);
    if alts.Reject? then Reject else Accept(Group(npar, alts.value), alts.pos, alts.npar)
  }

  function ParsePiece(p: seq<Ch>, pos: nat, npar: nat): (a: Parsed<Re>)
    ensures a.Accept? ==> pos < a.pos <= |p| && npar <= a.npar <= (if npar < NSUBEXP then NSUBEXP else npar)
    decreases |p| - pos, 1
  {
    var atom := ParseAtom(p, pos, npar);
    if atom.Reject? then Reject
    else
      var op := CharAt(p, atom.pos);
      if !IsRep(op) then atom
      else if !Width(atom.value) && op != QUESTION then Reject
      else if IsRep(CharAt(p, atom.pos + 1)) then Reject
      else Accept(Repeat(atom.value, op), atom.pos + 1, atom.npar)
  }

  /** The end of an alternative. */
  predicate AtBranchEnd(p: seq<Ch>, pos: nat) {
    var c := CharAt(p, pos);
    c == 0 || c == BAR || c == RPAREN
  }

  /** The rest of an alternative; ps are the pieces it has so far. */
  function ParseBranch(p: seq<Ch>, pos: nat, npar: nat, ps: seq<Re>): (a: Parsed<seq<Re>>)
    ensures a.Accept? ==> pos <= a.pos && (pos <= |p| ==> a.pos <= |p|)
    ensures a.Accept? ==> npar <= a.npar <= (if npar < NSUBEXP then NSUBEXP else npar)
    decreases |p| - pos, 2
  {
    if AtBranchEnd(p, pos) then Accept(ps, pos, npar)
    else
      var piece := ParsePiece(p, pos, npar);
      if piece.Reject? then Reject
      else ParseBranch(p, piece.pos, piece.npar, ps + [piece.value])
  }

  lemma BranchUnfold(p: seq<Ch>, pos: nat, npar: nat, ps: seq<Re>)
    ensures ParseBranch(p, pos, npar, ps) ==
            if AtBranchEnd(p, pos) then Accept(ps, pos, npar)
            else
              var piece := ParsePiece(p, pos, npar);
              if piece.Reject? then Reject else ParseBranch(p, piece.pos, piece.npar, ps + [piece.value])
  {
  }

  /** The rest of a list of alternatives; alts are those it has so far. */
  function ParseAlts(p: seq<Ch>, pos: nat, npar: nat, alts: seq<Branch>): (a: Parsed<seq<Branch>>)
    ensures a.Accept? ==> pos <= a.pos && (pos <= |p| ==> a.pos <= |p|)
    ensures a.Accept? ==> npar <= a.npar <= (if npar < NSUBEXP then NSUBEXP else npar)
    decreases |p| - pos, 3
  {
    var b := ParseBranch(p, pos, npar, []);
    if b.Reject? then Reject
    else if CharAt(p, b.pos) == BAR then ParseAlts(p, b.pos + 1, b.npar, alts + [Branch(b.value)])
    else Accept(alts + [Branch(b.value)], b.pos, b.npar)
  }

  lemma AltsUnfold(p: seq<Ch>, pos: nat, npar: nat, alts: seq<Branch>)
    ensures ParseAlts(p, pos, npar, alts) ==
            var b := ParseBranch(p, pos, npar, []);
            if b.Reject? then Reject
            else if CharAt(p, b.pos) == BAR then ParseAlts(p, b.pos + 1, b.npar, alts + [Branch(b.value)])
            else Accept(alts + [Branch(b.value)], b.pos, b.npar)
  {
  }

  /** The rest of a list of alternatives after a whole one. */
  function Rest(p: seq<Ch>, pos: nat, npar: nat, alts: seq<Branch>): (a: Parsed<seq<Branch>>) {
    if CharAt(p, pos) == BAR then ParseAlts(p, pos + 1, npar, alts) else Accept(alts, pos, npar)
  }

  /** The whole pattern: its alternatives, when it is well formed. */
  function ParsePattern(p: seq<Ch>): (a: Parsed<seq<Branch>>) {
    ParseReg(p, 0, 1, false)
  }
}
