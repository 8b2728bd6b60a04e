/** The record type of the program and the error values it passes around. */
module Types {

  /** An error value. The program never inspects errors; it only passes them up. */
  type Error = string

  /** One starred repository, as decoded from the hosting API.
      `name` is the `full_name` (owner/repo) field. Strings are byte strings:
      each `char` stands for one byte of the Go string. */
  datatype Repo = Repo(
    id: nat,
    name: string,
    description: string,
    url: string,
    language: string
  )
}
