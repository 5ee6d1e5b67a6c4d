/**
 * The language-model call (`model.generate_content(prompt).text`), seen from
 * the pages: given a prompt it either returns the response text or fails
 * with an error message. The pages never retry, so one call per prompt is
 * all the model needs.
 */
module Oracle {
  datatype Reply = Answer(text: string) | Failure(message: string)

  /** A model: a fixed answer (or failure) for each prompt. */
  type Model = string -> Reply
}
