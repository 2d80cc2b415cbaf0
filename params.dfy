/** The request bodies of httpserver/controller/params. */
module Params {
  import opened Models

  datatype CreateAuthors = CreateAuthors(name: string, birthdate: Time)
  /** UpdateAuthors also carries an `updated_at` field that nothing reads. */
  datatype UpdateAuthors = UpdateAuthors(name: string, birthdate: Time, updateAt: Time)
  datatype CreateBook = CreateBook(title: string, isbn: string, authorId: Uuid)
  datatype UpdateBook = UpdateBook(title: string, isbn: string, authorId: Uuid)
  datatype Register = Register(username: string, password: string)
  datatype Login = Login(username: string, password: string)
}
