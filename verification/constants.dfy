/** The configuration the core reads from `src/constants.py`. That file is not
    part of this model, so the trusted host prefix is passed in as a parameter
    and only the assumptions the tests make about it are stated here. */
module Constants {

  /** The separator the application splits its multi-URL text field on. */
  const SEP: string := "$"

  /** What the guard's tests imply about `HOST`: it is not empty (the empty
      string is rejected) and the document folder URL starts with it (that URL
      is accepted). */
  predicate ValidHost(host: string) {
    host != "" && host <= "https://www.sle.kit.edu/dokumente"
  }
}
