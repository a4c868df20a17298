/** The call to the generative-language service, reduced to its outcome:
    the response text, or a thrown error of any kind. */
module Generation {

  datatype Response = Success(text: string) | Failure
}
