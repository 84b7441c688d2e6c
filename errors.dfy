/** The Python exceptions that the modelled code can raise. */
module Exceptions {

  datatype Error =
    | IndexError                          // indexing an empty string or a too-short list
    | ValueError                          // tuple unpacking of the wrong arity, int() of a non-number
    | TypeError                           // an operation applied to `None`, or `<` between unordered objects
    | AttributeError                      // a method called on `None`, or a member the object lacks
    | AssertionError                      // a failed `assert`
    | NotImplementedError(member: string) // an abstract `Email` member that the backend does not override
    | UnknownMaildirFlag(flagType: string) // a Maildir info suffix whose version is not 2
}
