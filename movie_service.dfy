/** MovieService: the movie catalogue. Titles act as a second key: saving or
    renaming to a title another movie holds is refused. */
module MovieServices {
  import opened Outcomes
  import opened MovieEntity
  import opened Repositories

  const IdPreset := "Can't assign the id of a new entity"

  function TitleExists(title: string): (msg: string) { "Movie already exists with title - " + title }
  function TitleNotFound(title: string): (msg: string) { "Movie not found with title - " + title }

  /** updateMovie's title guard: the request renames the movie to a title
      some stored movie already has. Keeping the current title never
      conflicts. */
  predicate RenameConflict(rows: map<int, Movie>, movieTitle: string, title: Option<string>)
  {
    title != Some(movieTitle) && TitleTaken(rows, title)
  }

  class MovieService {
    const movieRepository: MovieRepository

    ghost predicate Valid()
      reads movieRepository
    {
      movieRepository.Valid()
    }

    constructor (movieRepository: MovieRepository)
      requires movieRepository.Valid()
      ensures this.movieRepository == movieRepository && Valid()
    {
      this.movieRepository := movieRepository;
    }

    /** isMovieExist: some stored movie has this title. */
    method IsMovieExist(title: Option<string>) returns (b: bool)
      requires Valid()
      ensures b <==> TitleTaken(movieRepository.rows, title)
    {
      var m := movieRepository.GetMovieByTitle(title);
      b := m.Some?;
    }

    /** isMovieExistById: some stored movie has this id. */
    method IsMovieExistById(id: int) returns (b: bool)
      ensures b <==> id in movieRepository.rows
    {
      b := movieRepository.ExistsById(id);
    }

    /** getMovieByTitle: the stored movie with this title, or 404. */
    method GetMovieByTitle(title: string) returns (r: Outcome<Movie>)
      requires Valid()
      ensures r.Ok? <==> TitleTaken(movieRepository.rows, Some(title))
      ensures r.Ok? ==> && r.value.id in movieRepository.rows
                        && movieRepository.rows[r.value.id] == r.value
                        && r.value.title == title
      ensures !r.Ok? ==> r == ResourceNotFound(TitleNotFound(title))
    {
      var m := movieRepository.GetMovieByTitle(Some(title));
      if m.None? {
        return ResourceNotFound(TitleNotFound(title));
      }
      r := Ok(m.value);
    }

    /** saveMovie: a preset id, then a taken title, then a failed validation
        is refused with 400, the store unchanged; otherwise the movie is
        stored under a fresh id. */
    method SaveMovie(movie: MovieRequest) returns (r: Outcome<Movie>)
      requires Valid()
      modifies movieRepository
      ensures Valid()
      ensures movie.id.Some? ==> r == IllegalArgument(IdPreset)
      ensures movie.id.None? && TitleTaken(old(movieRepository.rows), movie.title) ==>
                r == IllegalArgument(TitleExists(movie.title.value))
      ensures movie.id.None? && !TitleTaken(old(movieRepository.rows), movie.title) &&
              MovieEntity.Validate(movie).Some? ==>
                r == IllegalArgument(MovieEntity.Validate(movie).value)
      ensures r.Ok? <==> && movie.id.None?
                         && !TitleTaken(old(movieRepository.rows), movie.title)
                         && MovieEntity.Validate(movie).None?
      ensures r.Ok? ==> && r.value == MovieEntity.FromRequest(old(movieRepository.nextId), movie)
                        && r.value.id !in old(movieRepository.rows)
                        && movieRepository.rows == old(movieRepository.rows)[r.value.id := r.value]
      ensures !r.Ok? ==> movieRepository.rows == old(movieRepository.rows)
      ensures old(TitlesUnique(movieRepository.rows)) ==> TitlesUnique(movieRepository.rows)
    {
      if movie.id.Some? {
        return IllegalArgument(IdPreset);
      }
      var taken := IsMovieExist(movie.title);
      if taken {
        return IllegalArgument(TitleExists(movie.title.value));
      }
      var validation := MovieEntity.Validate(movie);
      if validation.Some? {
        return IllegalArgument(validation.value);
      }
      ghost var before := movieRepository.rows;
      var saved := movieRepository.Insert(movie);
      if TitlesUnique(before) {
        WriteKeepsTitlesUnique(before, saved);
      }
      r := Ok(saved);
    }

    /** updateMovie: a preset id is refused with 400, an unknown current
        title with 404, a new title another movie holds with 400, a failed
        validation with 400, each leaving the store unchanged; otherwise
        title, genre, duration, rating and release year of that movie are
        replaced and its id kept. */
    method UpdateMovie(movieTitle: string, movie: MovieRequest) returns (r: Outcome<Movie>)
      requires Valid()
      modifies movieRepository
      ensures Valid() && movieRepository.nextId == old(movieRepository.nextId)
      ensures movie.id.Some? ==> r == IllegalArgument(IdPreset)
      ensures movie.id.None? && !TitleTaken(old(movieRepository.rows), Some(movieTitle)) ==>
                r == ResourceNotFound(TitleNotFound(movieTitle))
      ensures movie.id.None? && TitleTaken(old(movieRepository.rows), Some(movieTitle)) &&
              RenameConflict(old(movieRepository.rows), movieTitle, movie.title) ==>
                r == IllegalArgument(TitleExists(movie.title.value))
      ensures movie.id.None? && TitleTaken(old(movieRepository.rows), Some(movieTitle)) &&
              !RenameConflict(old(movieRepository.rows), movieTitle, movie.title) &&
              MovieEntity.Validate(movie).Some? ==>
                r == IllegalArgument(MovieEntity.Validate(movie).value)
      ensures r.Ok? <==> && movie.id.None?
                         && TitleTaken(old(movieRepository.rows), Some(movieTitle))
                         && !RenameConflict(old(movieRepository.rows), movieTitle, movie.title)
                         && MovieEntity.Validate(movie).None?
      ensures r.Ok? ==> && r.value.id in old(movieRepository.rows)
                        && old(movieRepository.rows)[r.value.id].title == movieTitle
                        && r.value == MovieEntity.FromRequest(r.value.id, movie)
                        && movieRepository.rows == old(movieRepository.rows)[r.value.id := r.value]
      ensures !r.Ok? ==> movieRepository.rows == old(movieRepository.rows)
      ensures old(TitlesUnique(movieRepository.rows)) ==> TitlesUnique(movieRepository.rows)
    {
      if movie.id.Some? {
        return IllegalArgument(IdPreset);
      }
      var existing := movieRepository.GetMovieByTitle(Some(movieTitle));
      if existing.None? {
        return ResourceNotFound(TitleNotFound(movieTitle));
      }
      if movie.title != Some(movieTitle) {
        var taken := IsMovieExist(movie.title);
        if taken {
          return IllegalArgument(TitleExists(movie.title.value));
        }
      }
      var validation := MovieEntity.Validate(movie);
      if validation.Some? {
        return IllegalArgument(validation.value);
      }
      ghost var before := movieRepository.rows;
      var updated := MovieEntity.FromRequest(existing.value.id, movie);
      movieRepository.Update(updated);
      if TitlesUnique(before) {
        WriteKeepsTitlesUnique(before, updated);
      }
      r := Ok(updated);
    }

    /** deleteMovie: removes that movie only; showtimes that reference it are
        left as they are. */
    method DeleteMovie(id: int)
      requires Valid()
      modifies movieRepository
      ensures Valid() && movieRepository.nextId == old(movieRepository.nextId)
      ensures movieRepository.rows == old(movieRepository.rows) - {id}
      ensures old(TitlesUnique(movieRepository.rows)) ==> TitlesUnique(movieRepository.rows)
    {
      movieRepository.DeleteById(id);
    }
  }
}
