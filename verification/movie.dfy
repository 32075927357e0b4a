/** The record shape of one entry of the catalogue file: a title, a genre and a release year.
    Records carry no identity beyond their three fields. */
module Movies {

  datatype Movie = Movie(titulo: string, genero: string, lanzamiento: int)
}
