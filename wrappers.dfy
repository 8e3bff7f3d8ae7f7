/** Optional values, results and the error kinds the automata code raises. */
module Wrappers {

  datatype Option<T> = None | Some(value: T)

  /** Why a parse of a regular expression fails; one constructor per raise site. */
  datatype ParseError =
    | NotAllowed(symbol: char)                 // a character outside the regex syntax
    | AfterOperator(symbol: char, previous: Option<char>) // '*', ')', '+' in an illegal position
    | CloseOnEmptyStack                         // ')' with no matching '('
    | OperatorOnEmptyStack(op: char)            // an operator with no fragment to apply to
    | InadequateOperands(op: char)              // a binary operator with fewer than two fragments
    | NotFullyReduced                           // more than one fragment left at the end
    | NothingParsed                             // no fragment at all at the end
    | UnclosedBracket                           // a '(' never closed (checked by the corrected parser only)

  /** The exceptions of the automata code. */
  datatype Error =
    | SymbolMisMatch        // two DFAs combined over different alphabets
    | ElementNotInTable     // a minimization-table lookup with neither ordering present
    | EmptyPick             // the first element of an empty collection was asked for
    | Parse(reason: ParseError)

  datatype Result<T> = Ok(value: T) | Err(error: Error)

  datatype Outcome = Pass | Fail(error: Error)
}
