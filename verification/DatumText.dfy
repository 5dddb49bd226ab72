/** The text of a labelled datum, as tokens: list notation with the spine of a list written flat, and the
    reader of section 7.1.2 of R7RS that takes it back apart. */
module DatumText {
  import opened Util
  import opened SchemeHeap
  import opened LabelledDatum

  // Dot is " . ", LabelDef is "#n=", LabelRef is "#n#"; Plain is the text write_value gives a leaf.
  datatype Token =
    | Open | OpenVector | Close | Space | Dot
    | LabelDef(id: nat) | LabelRef(id: nat) | Plain(leaf: Leaf)

  // A pair has two parts.
  predicate PairShaped(s: Syn) {
    match s
    case Atom(_) => true
    case Ref(_) => true
    case Def(_, d) => PairShaped(d)
    case Node(vector, parts) =>
      && (!vector ==> |parts| == 2)
      && forall k :: 0 <= k < |parts| ==> PairShaped(parts[k])
  }

  function Print(s: Syn): seq<Token>
    requires PairShaped(s)
    decreases s, 0
  {
    match s
    case Atom(l) => [Plain(l)]
    case Ref(n) => [LabelRef(n)]
    case Def(n, d) => [LabelDef(n)] + Print(d)
    case Node(vector, parts) =>
      if vector then [OpenVector] + PrintItems(s, 0)
      else [Open] + Print(parts[0]) + PrintTail(parts[1])
  }

  // The items of a vector from the k-th on, and the closing parenthesis.
  function PrintItems(s: Syn, k: nat): seq<Token>
    requires PairShaped(s) && s.Node? && k <= |s.parts|
    decreases s, 0, |s.parts| - k
  {
    if k == |s.parts| then [Close]
    else (if k > 0 then [Space] else []) + Print(s.parts[k]) + PrintItems(s, k + 1)
  }

  // The rest of a list after its first element: an unlabelled pair just continues it, and the empty list ends it.
  function PrintTail(d: Syn): seq<Token>
    requires PairShaped(d)
    decreases d, 1
  {
    if d.Node? && !d.vector then [Space] + Print(d.parts[0]) + PrintTail(d.parts[1])
    else if d == Atom(NIL) then [Close]
    else [Dot] + Print(d) + [Close]
  }

  // ---- reading it back

  function Read(toks: seq<Token>): (r: Option<(Syn, seq<Token>)>)
    ensures r.Some? ==> |r.value.1| < |toks|
    decreases |toks|, 0
  {
    if toks == [] then None
    else
      var rest := toks[1..];
      match toks[0]
      case Plain(l) => Some((Atom(l), rest))
      case LabelRef(n) => Some((Ref(n), rest))
      case LabelDef(n) =>
        (match Read(rest)
         case None => None
         case Some((d, more)) => Some((Def(n, d), more)))
      case OpenVector =>
        (match ReadItems(rest, true)
         case None => None
         case Some((parts, more)) => Some((Node(true, parts), more)))
      case Open =>
        (match Read(rest)
         case None => None
         case Some((a, more)) =>
           match ReadTail(more)
           case None => None
           case Some((d, end)) => Some((Node(false, [a, d]), end)))
      case _ => None
  }

  function ReadItems(toks: seq<Token>, first: bool): (r: Option<(seq<Syn>, seq<Token>)>)
    ensures r.Some? ==> |r.value.1| < |toks|
    decreases |toks|, 1
  {
    if toks == [] then None
    else if toks[0] == Close then Some(([], toks[1..]))
    else if !first && toks[0] != Space then None
    else
      match Read(if first then toks else toks[1..])
      case None => None
      case Some((s, more)) =>
        match ReadItems(more, false)
        case None => None
        case Some((parts, end)) => Some(([s] + parts, end))
  }

  function ReadTail(toks: seq<Token>): (r: Option<(Syn, seq<Token>)>)
    ensures r.Some? ==> |r.value.1| < |toks|
    decreases |toks|, 1
  {
    if toks == [] then None
    else if toks[0] == Close then Some((Atom(NIL), toks[1..]))
    else if toks[0] == Space then
      match Read(toks[1..])
      case None => None
      case Some((a, more)) =>
        (match ReadTail(more)
         case None => None
         case Some((d, end)) => Some((Node(false, [a, d]), end)))
    else if toks[0] == Dot then
      match Read(toks[1..])
      case None => None
      case Some((d, more)) => if more != [] && more[0] == Close then Some((d, more[1..])) else None
    else None
  }

  lemma ConsText(t: Token, s: seq<Token>)
    ensures ([t] + s)[0] == t && ([t] + s)[1..] == s
  {
  }

  // Read and ReadTail unfolded once.
  lemma ReadDef(n: nat, d: Syn, t: seq<Token>, rest: seq<Token>)
    requires Read(t) == Some((d, rest))
    ensures Read([LabelDef(n)] + t) == Some((Def(n, d), rest))
  {
    ConsText(LabelDef(n), t);
  }

  lemma ReadPair(a: Syn, d: Syn, t: seq<Token>, tail: seq<Token>, rest: seq<Token>)
    requires Read(t) == Some((a, tail)) && ReadTail(tail) == Some((d, rest))
    ensures Read([Open] + t) == Some((Node(false, [a, d]), rest))
  {
    ConsText(Open, t);
    hide ReadTail;
  }

  lemma ReadVector(parts: seq<Syn>, t: seq<Token>, rest: seq<Token>)
    requires ReadItems(t, true) == Some((parts, rest))
    ensures Read([OpenVector] + t) == Some((Node(true, parts), rest))
  {
    ConsText(OpenVector, t);
    hide ReadItems;
  }

  lemma ReadNext(a: Syn, d: Syn, t: seq<Token>, tail: seq<Token>, rest: seq<Token>)
    requires Read(t) == Some((a, tail)) && ReadTail(tail) == Some((d, rest))
    ensures ReadTail([Space] + t) == Some((Node(false, [a, d]), rest))
  {
    ConsText(Space, t);
    hide Read;
  }

  lemma ReadDotted(d: Syn, t: seq<Token>, rest: seq<Token>)
    requires Read(t) == Some((d, [Close] + rest))
    ensures ReadTail([Dot] + t) == Some((d, rest))
  {
    ConsText(Dot, t);
    ConsText(Close, rest);
    hide Read;
  }

  lemma ReadOne(s: Syn, rest: seq<Token>)
    requires s.Atom? || s.Ref?
    ensures PairShaped(s) && Read(Print(s) + rest) == Some((s, rest))
  {
    assert (Print(s) + rest)[1..] == rest;
  }

  // The text determines the datum.
  lemma {:induction false} ReadPrint(s: Syn, rest: seq<Token>)
    requires PairShaped(s)
    ensures Read(Print(s) + rest) == Some((s, rest))
    decreases s, 0
  {
    match s
    case Atom(_) => ReadOne(s, rest);
    case Ref(_) => ReadOne(s, rest);
    case Def(n, d) =>
      PrintedDef(s, rest);
      hide Print, Read, PrintItems, PrintTail, ReadItems, ReadTail;
      ReadPrint(d, rest);
      ReadDef(n, d, Print(d) + rest, rest);
    case Node(vector, parts) =>
      if vector {
        PrintedVector(s, rest);
        assert parts[0..] == parts;
        hide Print, Read, PrintItems, PrintTail, ReadItems, ReadTail;
        ReadPrintItems(s, 0, rest);
        ReadVector(parts, PrintItems(s, 0) + rest, rest);
      } else {
        var a, d := parts[0], parts[1];
        PrintedPair(s, rest);
        hide Print, PrintTail, Read, ReadTail, PrintItems, ReadItems;
        ReadPrint(a, PrintTail(d) + rest);
        ReadPrintTail(d, rest);
        ReadPair(a, d, Print(a) + (PrintTail(d) + rest), PrintTail(d) + rest, rest);
      }
  }

  lemma PrintedDef(s: Syn, rest: seq<Token>)
    requires PairShaped(s) && s.Def?
    ensures PairShaped(s.datum) && Print(s) + rest == [LabelDef(s.id)] + (Print(s.datum) + rest)
  {
  }

  lemma PrintedVector(s: Syn, rest: seq<Token>)
    requires PairShaped(s) && s.Node? && s.vector
    ensures Print(s) + rest == [OpenVector] + (PrintItems(s, 0) + rest)
  {
    hide PrintItems;
  }

  lemma PrintedPair(s: Syn, rest: seq<Token>)
    requires PairShaped(s) && s.Node? && !s.vector
    ensures s.parts == [s.parts[0], s.parts[1]] && PairShaped(s.parts[0]) && PairShaped(s.parts[1])
    ensures Print(s) + rest == [Open] + (Print(s.parts[0]) + (PrintTail(s.parts[1]) + rest))
  {
    hide PrintTail;
  }

  lemma PrintStart(s: Syn)
    requires PairShaped(s)
    ensures Print(s) != [] && Print(s)[0] != Close && Print(s)[0] != Space
  {
  }

  // ReadItems at an item.
  lemma ItemsStep(t: seq<Token>, first: bool)
    requires t != [] && t[0] != Close && t[0] != Space && Read(t).Some?
    ensures var (item, more) := Read(t).value;
      ReadItems(if first then t else [Space] + t, first)
      == if ReadItems(more, false).None? then None
         else Some(([item] + ReadItems(more, false).value.0, ReadItems(more, false).value.1))
  {
    assert ([Space] + t)[1..] == t;
    hide Read;
  }

  lemma {:induction false} ReadPrintItems(s: Syn, k: nat, rest: seq<Token>)
    requires PairShaped(s) && s.Node? && k <= |s.parts|
    ensures ReadItems(PrintItems(s, k) + rest, k == 0) == Some((s.parts[k..], rest))
    decreases s, 0, |s.parts| - k
  {
    if k == |s.parts| {
      hide *;
      NoItemsLeft(s, rest);
    } else {
      var after := PrintItems(s, k + 1) + rest;
      var text := Print(s.parts[k]);
      assert PairShaped(s.parts[k]);
      hide *;
      PrintStart(s.parts[k]);
      ItemText(s, k, rest);
      ReadPrint(s.parts[k], after);
      ReadPrintItems(s, k + 1, rest);
      ItemsStep(text + after, k == 0);
      TailOf(s.parts, k);
    }
  }

  lemma TailOf<T>(s: seq<T>, k: nat)
    requires k < |s|
    ensures s[k..] == [s[k]] + s[k + 1..]
  {
  }

  lemma NoItemsLeft(s: Syn, rest: seq<Token>)
    requires PairShaped(s) && s.Node?
    ensures ReadItems(PrintItems(s, |s.parts|) + rest, |s.parts| == 0) == Some((s.parts[|s.parts|..], rest))
  {
    assert PrintItems(s, |s.parts|) == [Close] && s.parts[|s.parts|..] == [];
    ConsText(Close, rest);
    hide PrintItems;
  }

  lemma ItemText(s: Syn, k: nat, rest: seq<Token>)
    requires PairShaped(s) && s.Node? && k < |s.parts|
    ensures var t := Print(s.parts[k]) + (PrintItems(s, k + 1) + rest);
      PrintItems(s, k) + rest == if k == 0 then t else [Space] + t
  {
    hide Print;
  }

  lemma {:induction false} ReadPrintTail(d: Syn, rest: seq<Token>)
    requires PairShaped(d)
    ensures ReadTail(PrintTail(d) + rest) == Some((d, rest))
    decreases d, 1
  {
    if d.Node? && !d.vector {
      var a, more := d.parts[0], d.parts[1];
      PrintedNext(d, rest);
      hide *;
      ReadPrint(a, PrintTail(more) + rest);
      ReadPrintTail(more, rest);
      ReadNext(a, more, Print(a) + (PrintTail(more) + rest), PrintTail(more) + rest, rest);
    } else if d == Atom(NIL) {
      hide *;
      ListEnds(rest);
    } else {
      PrintedDotted(d, rest);
      hide *;
      ReadPrint(d, [Close] + rest);
      ReadDotted(d, Print(d) + ([Close] + rest), rest);
    }
  }

  lemma PrintedNext(d: Syn, rest: seq<Token>)
    requires PairShaped(d) && d.Node? && !d.vector
    ensures d.parts == [d.parts[0], d.parts[1]] && d == Node(false, [d.parts[0], d.parts[1]])
    ensures PairShaped(d.parts[0]) && PairShaped(d.parts[1])
    ensures PrintTail(d) + rest == [Space] + (Print(d.parts[0]) + (PrintTail(d.parts[1]) + rest))
  {
    hide Print;
  }

  lemma PrintedDotted(d: Syn, rest: seq<Token>)
    requires PairShaped(d) && !(d.Node? && !d.vector) && d != Atom(NIL)
    ensures PrintTail(d) + rest == [Dot] + (Print(d) + ([Close] + rest))
  {
    hide Print;
  }

  lemma ListEnds(rest: seq<Token>)
    ensures PairShaped(Atom(NIL)) && ReadTail(PrintTail(Atom(NIL)) + rest) == Some((Atom(NIL), rest))
  {
    ConsText(Close, rest);
  }
}
