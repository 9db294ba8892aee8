/** The local Flan-T5 `text2text-generation` pipeline (app.py:10-24), seen
    from its callers.  Whether the libraries imported and the model loaded
    is a value of the model; what the model generates for a prompt is a
    function the caller is given, so every property proved about
    `legal_summary` and `legal_chatbot` holds whatever the model says.  A
    call either raises (any exception the callers catch) or yields the
    `generated_text` of its first response. */
module Flan {
  datatype Outcome = Raised | Generated(text: string)

  /** `flan_pipeline`: `None` when the imports failed (`Unavailable`), or a
      loaded pipeline mapping a prompt to its outcome. */
  datatype Pipeline = Unavailable | Loaded(run: string -> Outcome)
}
