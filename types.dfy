/**
 The records of the learning portal, reconstructed from how the store and the
 student dashboard use them: users with their progress, the static chapters,
 and the three kinds of content items (videos, mind maps and quizzes).
 */
module Types {
  import opened Seqs

  /** The two account kinds; every non-admin account is treated as a student. */
  datatype Role = Student | Admin

  /** The grade levels the chapter catalogue is tagged with. */
  datatype ClassLevel = Class3 | Class4 | Class5

  /** A user's progress: watched video ids and best percentage per quiz id. */
  datatype Progress = Progress(watchedVideos: seq<string>, quizScores: map<string, int>)

  /** An account. `avatar` is an emoji or an image URL; both it and the class may be unset. */
  datatype User = User(
    id: string,
    name: string,
    email: string,
    role: Role,
    avatar: Option<string>,
    selectedClass: Option<ClassLevel>,
    progress: Progress)

  /** A curriculum chapter of the static catalogue. */
  datatype Chapter = Chapter(id: string, name: string, classLevel: ClassLevel)

  /** A multiple-choice question; `correctAnswer` indexes `options`. */
  datatype Question = Question(text: string, options: seq<string>, correctAnswer: int)

  /** How a mind map is stored. */
  datatype MapFormat = Pdf | Image

  /**
   A content item. The three kinds share an id, a title and the chapter they
   belong to; the store's content operations accept any of them.
   */
  datatype Content =
    | Video(id: string, title: string, chapterId: string, url: string)
    | MindMap(id: string, title: string, chapterId: string, url: string, format: MapFormat)
    | Quiz(id: string, title: string, chapterId: string, questions: seq<Question>)

  /** The result a finished quiz reports to the store. */
  datatype QuizResult = QuizResult(quizId: string, score: int)

  /** A progress record with nothing watched and no quiz taken. */
  const EmptyProgress := Progress([], map[])
}
